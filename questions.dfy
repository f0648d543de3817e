/** The in-memory question store and its seven procedures.

    The store is one ordered list of question records.  Every procedure
    validates its input against the schema before it touches the store, so
    a rejected input changes nothing.  Lookups find the FIRST record (or
    answer) whose id matches; a missing id is a NOT_FOUND failure.  New ids
    are not generated here: the caller supplies them. */
module Questions {
  import opened Sequences
  import opened Schema

  datatype Option<T> = None | Some(value: T)

  const PostNotFound: string := "Post not found"
  const AnswerNotFound: string := "Answer not found"

  /** Why a procedure failed: its input broke the schema (a BAD_REQUEST
      carrying the schema's messages), or it names a question or an answer
      that is not in the store (NOT_FOUND with a message). */
  datatype Failure = BadRequest(messages: seq<string>) | NotFound(message: string)

  datatype Result<T> = Ok(value: T) | Err(failure: Failure)

  /** What addAnswer returns: the stored answer and the id of its question. */
  datatype AddAnswerOutput = AddAnswerOutput(newAnswer: Answer, questionId: string)

  /** What deleteAnswer returns: the removed answer's id and its question's id. */
  datatype DeleteAnswerOutput = DeleteAnswerOutput(id: string, questionId: string)

  // ---------------------------------------------------------------------
  // Lookup by id
  // ---------------------------------------------------------------------

  // The ids of a list of questions and of a list of answers.  The two
  // record types have no common supertype here, so each list gets its own
  // projection; both feed the one first-match search, IndexOf.

  function PostIds(posts: seq<Question>): (ids: seq<string>)
    ensures |ids| == |posts| && forall k :: 0 <= k < |posts| ==> ids[k] == posts[k].id
  {
    seq(|posts|, k requires 0 <= k < |posts| => posts[k].id)
  }

  function AnswerIds(answers: seq<Answer>): (ids: seq<string>)
    ensures |ids| == |answers| && forall k :: 0 <= k < |answers| ==> ids[k] == answers[k].id
  {
    seq(|answers|, k requires 0 <= k < |answers| => answers[k].id)
  }

  /** The index of the first occurrence of `id` in `ids`, or None when it
      does not occur: what Array.prototype.findIndex computes. */
  function IndexOf(ids: seq<string>, id: string): (r: Option<nat>)
    ensures r.None? ==> forall k :: 0 <= k < |ids| ==> ids[k] != id
    ensures r.Some? ==>
      && r.value < |ids| && ids[r.value] == id
      && forall k :: 0 <= k < r.value ==> ids[k] != id
  {
    if ids == [] then None
    else if ids[0] == id then Some(0)
    else
      match IndexOf(ids[1..], id)
      case None => None
      case Some(k) => Some(k + 1)
  }

  /** IndexOf finds `i` exactly when `i` is the first position holding `id`. */
  lemma IndexOfIsFirst(ids: seq<string>, id: string, i: nat)
    ensures IndexOf(ids, id) == Some(i) <==>
      i < |ids| && ids[i] == id && forall k :: 0 <= k < i ==> ids[k] != id
  {
    var r := IndexOf(ids, id);
    if i < |ids| && ids[i] == id && forall k :: 0 <= k < i ==> ids[k] != id {
      assert r.Some?;
    }
  }

  /** The position of the first question with the given id. */
  function PostIndex(posts: seq<Question>, id: string): (r: Option<nat>)
    ensures r.None? <==> forall k :: 0 <= k < |posts| ==> posts[k].id != id
    ensures r.Some? ==>
      && r.value < |posts| && posts[r.value].id == id
      && forall k :: 0 <= k < r.value ==> posts[k].id != id
  {
    IndexOf(PostIds(posts), id)
  }

  /** The position of the first answer with the given id. */
  function AnswerIndex(answers: seq<Answer>, id: string): (r: Option<nat>)
    ensures r.None? <==> forall k :: 0 <= k < |answers| ==> answers[k].id != id
    ensures r.Some? ==>
      && r.value < |answers| && answers[r.value].id == id
      && forall k :: 0 <= k < r.value ==> answers[k].id != id
  {
    IndexOf(AnswerIds(answers), id)
  }

  /** The answer lookup of deleteAnswer: a linear scan for the first answer
      with the given id. */
  method FindAnswer(answers: seq<Answer>, id: string) returns (r: Option<nat>)
    ensures r == AnswerIndex(answers, id)
  {
    var i := 0;
    while i < |answers|
      invariant i <= |answers|
      invariant forall k :: 0 <= k < i ==> AnswerIds(answers)[k] != id
    {
      if answers[i].id == id {
        IndexOfIsFirst(AnswerIds(answers), id, i);
        return Some(i);
      }
      i := i + 1;
    }
    return None;
  }

  // ---------------------------------------------------------------------
  // The seed record
  // ---------------------------------------------------------------------

  // The seed texts.  The long ones are written as two literals only to keep
  // the lines short.
  const SeedQuestionText: string := "What is the meaning of life?"
  const SeedAnswerText1: string := "The pursuit of happiness and fulfillment "
    + "in whatever way one chooses."
  const SeedAnswerText2: string := "The meaning of life is to find inner peace "
    + "and contentment through mindfulness and self-reflection."

  /** The one record the store holds when the process starts. */
  function SeedQuestion(): Question
  {
    Question("1", SeedQuestionText, [Answer("1", SeedAnswerText1), Answer("2", SeedAnswerText2)])
  }

  // ---------------------------------------------------------------------
  // Store-wide invariants and how the three kinds of change keep them
  // ---------------------------------------------------------------------

  /** Every record passes the schema unchanged. */
  predicate AllStoredForm(posts: seq<Question>)
  {
    forall k :: 0 <= k < |posts| ==> IsStoredForm(posts[k])
  }

  /** Within each record, no two answers share an id. */
  predicate AnswerIdsDistinct(posts: seq<Question>)
  {
    forall k :: 0 <= k < |posts| ==> Distinct(AnswerIds(posts[k].answers))
  }

  /** Appending a record (push) keeps the invariants it does not break itself. */
  lemma AppendPostPreserves(posts: seq<Question>, q: Question)
    ensures AllStoredForm(posts) && IsStoredForm(q) ==> AllStoredForm(posts + [q])
    ensures Distinct(PostIds(posts)) && PostIndex(posts, q.id).None? ==>
      Distinct(PostIds(posts + [q]))
    ensures AnswerIdsDistinct(posts) && Distinct(AnswerIds(q.answers)) ==>
      AnswerIdsDistinct(posts + [q])
  {
    assert PostIds(posts + [q]) == PostIds(posts) + [q.id];
    if Distinct(PostIds(posts)) && PostIndex(posts, q.id).None? {
      AppendDistinct(PostIds(posts), q.id);
    }
  }

  /** Replacing a record by one with the same id (an in-place field update)
      keeps the ids and the invariants the new record meets. */
  lemma ReplacePostPreserves(posts: seq<Question>, i: nat, q: Question)
    requires i < |posts| && q.id == posts[i].id
    ensures PostIds(posts[i := q]) == PostIds(posts)
    ensures AllStoredForm(posts) && IsStoredForm(q) ==> AllStoredForm(posts[i := q])
    ensures AnswerIdsDistinct(posts) && Distinct(AnswerIds(q.answers)) ==>
      AnswerIdsDistinct(posts[i := q])
  {
    assert PostIds(posts[i := q]) == PostIds(posts);
  }

  /** Removing a record (splice) keeps every invariant; with distinct ids,
      no record with the removed id is left. */
  lemma RemovePostPreserves(posts: seq<Question>, i: nat)
    requires i < |posts|
    ensures AllStoredForm(posts) ==> AllStoredForm(RemoveAt(posts, i))
    ensures AnswerIdsDistinct(posts) ==> AnswerIdsDistinct(RemoveAt(posts, i))
    ensures Distinct(PostIds(posts)) ==>
      Distinct(PostIds(RemoveAt(posts, i))) && PostIndex(RemoveAt(posts, i), posts[i].id).None?
  {
    var r := RemoveAt(posts, i);
    assert PostIds(r) == RemoveAt(PostIds(posts), i);
    if Distinct(PostIds(posts)) {
      RemoveAtDistinct(PostIds(posts), i);
    }
  }

  /** A store of one record meets every store-wide invariant that record
      meets. */
  lemma SingletonPreserves(q: Question)
    ensures IsStoredForm(q) ==> AllStoredForm([q])
    ensures Distinct(PostIds([q]))
    ensures Distinct(AnswerIds(q.answers)) ==> AnswerIdsDistinct([q])
  {
  }

  /** Appending an answer whose id no answer of the record has keeps the
      record's answer ids distinct. */
  lemma AppendAnswerPreserves(answers: seq<Answer>, a: Answer)
    requires Distinct(AnswerIds(answers)) && AnswerIndex(answers, a.id).None?
    ensures Distinct(AnswerIds(answers + [a]))
  {
    assert AnswerIds(answers + [a]) == AnswerIds(answers) + [a.id];
    AppendDistinct(AnswerIds(answers), a.id);
  }

  /** Removing an answer from a record whose answer ids are distinct keeps
      them distinct and leaves no answer with the removed id. */
  lemma RemoveAnswerPreserves(answers: seq<Answer>, j: nat)
    requires j < |answers| && Distinct(AnswerIds(answers))
    ensures Distinct(AnswerIds(RemoveAt(answers, j)))
    ensures AnswerIndex(RemoveAt(answers, j), answers[j].id).None?
  {
    assert AnswerIds(RemoveAt(answers, j)) == RemoveAt(AnswerIds(answers), j);
    RemoveAtDistinct(AnswerIds(answers), j);
  }

  // ---------------------------------------------------------------------
  // The store
  // ---------------------------------------------------------------------

  /** A store holding one record shaped like the seed (question "1" with
      answers "1" and "2") satisfies every store invariant once its texts
      are already in trimmed, valid form. */
  lemma SeedShapeInvariants(question: string, first: string, second: string)
    requires NoOuterWhitespace(question) && |question| >= MinLength
    requires EndsWithQuestionMark(question)
    requires NoOuterWhitespace(first) && |first| >= MinLength
    requires NoOuterWhitespace(second) && |second| >= MinLength
    ensures AllStoredForm([Question("1", question, [Answer("1", first), Answer("2", second)])])
    ensures Distinct(PostIds([Question("1", question, [Answer("1", first), Answer("2", second)])]))
    ensures AnswerIdsDistinct([Question("1", question, [Answer("1", first), Answer("2", second)])])
  {
    var q := Question("1", question, [Answer("1", first), Answer("2", second)]);
    TrimKeepsUnpadded(question);
    TrimKeepsUnpadded(first);
    TrimKeepsUnpadded(second);
    StoredFormIff(q);
    assert AnswerIds(q.answers) == ["1", "2"];
    SingletonPreserves(q);
  }

  /** The seed texts are already trimmed and long enough, and the seed
      question ends with a question mark. */
  lemma SeedTextsValid()
    ensures NoOuterWhitespace(SeedQuestionText) && |SeedQuestionText| >= MinLength
    ensures EndsWithQuestionMark(SeedQuestionText)
    ensures NoOuterWhitespace(SeedAnswerText1) && |SeedAnswerText1| >= MinLength
    ensures NoOuterWhitespace(SeedAnswerText2) && |SeedAnswerText2| >= MinLength
  {
    var question, first, second := SeedQuestionText, SeedAnswerText1, SeedAnswerText2;
    assert question[0] == 'W' && question[|question| - 1] == '?';
    assert first[0] == 'T' && first[|first| - 1] == '.';
    assert second[0] == 'T' && second[|second| - 1] == '.';
  }

  /** The store holding only the seed record satisfies every invariant. */
  lemma SeedStoreInvariants()
    ensures AllStoredForm([SeedQuestion()])
    ensures Distinct(PostIds([SeedQuestion()]))
    ensures AnswerIdsDistinct([SeedQuestion()])
  {
    SeedTextsValid();
    SeedShapeInvariants(SeedQuestionText, SeedAnswerText1, SeedAnswerText2);
  }

  class Store {
    /** The questions, in insertion order. */
    var posts: seq<Question>

    /** Every stored record passes the schema unchanged: all stored texts
        are trimmed and valid. */
    ghost predicate Valid()
      reads this
    {
      AllStoredForm(posts)
    }

    /** No two questions share an id. */
    ghost predicate UniquePostIds()
      reads this
    {
      Distinct(PostIds(posts))
    }

    /** Within each question, no two answers share an id. */
    ghost predicate UniqueAnswerIds()
      reads this
    {
      AnswerIdsDistinct(posts)
    }

    /** The store as the process starts it: the seed record alone. */
    constructor ()
      ensures posts == [SeedQuestion()]
      ensures Valid() && UniquePostIds() && UniqueAnswerIds()
    {
      posts := [SeedQuestion()];
      SeedStoreInvariants();
    }

    /** getAll: the whole store, in insertion order. */
    method GetAll() returns (r: seq<Question>)
      ensures r == posts
    {
      r := posts;
    }

    /** The question lookup of every procedure: a linear scan for the first
        question with the given id. */
    method FindPost(id: string) returns (r: Option<nat>)
      ensures r == PostIndex(posts, id)
    {
      var i := 0;
      while i < |posts|
        invariant i <= |posts|
        invariant forall k :: 0 <= k < i ==> PostIds(posts)[k] != id
      {
        if posts[i].id == id {
          IndexOfIsFirst(PostIds(posts), id, i);
          return Some(i);
        }
        i := i + 1;
      }
      return None;
    }

    /** getOne: the first question with the given id, or None; it never
        fails. */
    method GetOne(id: string) returns (r: Option<Question>)
      ensures r.None? <==> forall k :: 0 <= k < |posts| ==> posts[k].id != id
      ensures r.Some? ==> PostIndex(posts, id).Some? && r.value == posts[PostIndex(posts, id).value]
    {
      var i := FindPost(id);
      if i.Some? {
        r := Some(posts[i.value]);
      } else {
        r := None;
      }
    }

    /** create: validates the text, then appends a record with the supplied
        id, the trimmed text and no answers, and returns it. */
    method Create(text: string, freshId: string) returns (r: Result<Question>)
      modifies this
      ensures ValidateQuestionText(text).Rejected? ==>
        r == Err(BadRequest(ValidateQuestionText(text).messages)) && posts == old(posts)
      ensures ValidateQuestionText(text).Accepted? ==>
        && r == Ok(Question(freshId, ValidateQuestionText(text).value, []))
        && posts == old(posts) + [r.value]
      ensures old(Valid()) ==> Valid()
      ensures old(UniqueAnswerIds()) ==> UniqueAnswerIds()
      ensures old(UniquePostIds()) && PostIndex(old(posts), freshId).None? ==> UniquePostIds()
    {
      match ValidateQuestionText(text)
      case Rejected(m) =>
        r := Err(BadRequest(m));
      case Accepted(t) =>
        var post := Question(freshId, t, []);
        NewQuestionIsStoredForm(freshId, text);
        AppendPostPreserves(posts, post);
        posts := posts + [post];
        r := Ok(post);
    }

    /** update: validates the text, then replaces the text of the first
        question with the given id and returns the updated record. */
    method Update(id: string, text: string) returns (r: Result<Question>)
      modifies this
      ensures ValidateQuestionText(text).Rejected? ==>
        r == Err(BadRequest(ValidateQuestionText(text).messages)) && posts == old(posts)
      ensures ValidateQuestionText(text).Accepted? && PostIndex(old(posts), id).None? ==>
        r == Err(NotFound(PostNotFound)) && posts == old(posts)
      ensures ValidateQuestionText(text).Accepted? && PostIndex(old(posts), id).Some? ==>
        var i := PostIndex(old(posts), id).value;
        && r == Ok(old(posts)[i].(question := ValidateQuestionText(text).value))
        && posts == old(posts)[i := r.value]
      ensures PostIds(posts) == PostIds(old(posts))
      ensures old(Valid()) ==> Valid()
      ensures old(UniqueAnswerIds()) ==> UniqueAnswerIds()
    {
      match ValidateQuestionText(text)
      case Rejected(m) =>
        r := Err(BadRequest(m));
      case Accepted(t) =>
        var i := FindPost(id);
        if i.None? {
          r := Err(NotFound(PostNotFound));
        } else {
          var post := posts[i.value].(question := t);
          if Valid() {
            ReplacedTextIsStoredForm(posts[i.value], text);
          }
          ReplacePostPreserves(posts, i.value, post);
          posts := posts[i.value := post];
          r := Ok(post);
        }
    }

    /** delete: removes the first question with the given id, with all its
        answers, and returns the id. */
    method Delete(id: string) returns (r: Result<string>)
      modifies this
      ensures PostIndex(old(posts), id).None? ==>
        r == Err(NotFound(PostNotFound)) && posts == old(posts)
      ensures PostIndex(old(posts), id).Some? ==>
        r == Ok(id) && posts == RemoveAt(old(posts), PostIndex(old(posts), id).value)
      ensures old(Valid()) ==> Valid()
      ensures old(UniquePostIds()) ==> UniquePostIds() && PostIndex(posts, id).None?
      ensures old(UniqueAnswerIds()) ==> UniqueAnswerIds()
    {
      var i := FindPost(id);
      if i.None? {
        r := Err(NotFound(PostNotFound));
      } else {
        RemovePostPreserves(posts, i.value);
        posts := RemoveAt(posts, i.value);
        r := Ok(id);
      }
    }

    /** addAnswer: validates the text, then appends an answer with the
        supplied id to the first question with the given id, and returns
        the new answer with that question's id. */
    method AddAnswer(postId: string, text: string, freshId: string) returns (r: Result<AddAnswerOutput>)
      modifies this
      ensures ValidateAnswerText(text).Rejected? ==>
        r == Err(BadRequest(ValidateAnswerText(text).messages)) && posts == old(posts)
      ensures ValidateAnswerText(text).Accepted? && PostIndex(old(posts), postId).None? ==>
        r == Err(NotFound(PostNotFound)) && posts == old(posts)
      ensures ValidateAnswerText(text).Accepted? && PostIndex(old(posts), postId).Some? ==>
        var i := PostIndex(old(posts), postId).value;
        var answer := Answer(freshId, ValidateAnswerText(text).value);
        && r == Ok(AddAnswerOutput(answer, postId))
        && posts == old(posts)[i := old(posts)[i].(answers := old(posts)[i].answers + [answer])]
      ensures PostIds(posts) == PostIds(old(posts))
      ensures old(Valid()) ==> Valid()
      ensures old(UniqueAnswerIds())
        && (PostIndex(old(posts), postId).Some? ==>
              AnswerIndex(old(posts)[PostIndex(old(posts), postId).value].answers, freshId).None?)
        ==> UniqueAnswerIds()
    {
      match ValidateAnswerText(text)
      case Rejected(m) =>
        r := Err(BadRequest(m));
      case Accepted(t) =>
        var i := FindPost(postId);
        if i.None? {
          r := Err(NotFound(PostNotFound));
        } else {
          var answer := Answer(freshId, t);
          var answers := posts[i.value].answers;
          var post := posts[i.value].(answers := answers + [answer]);
          if Valid() {
            AppendedAnswerIsStoredForm(posts[i.value], freshId, text);
          }
          if UniqueAnswerIds() && AnswerIndex(answers, freshId).None? {
            AppendAnswerPreserves(answers, answer);
          }
          ReplacePostPreserves(posts, i.value, post);
          posts := posts[i.value := post];
          r := Ok(AddAnswerOutput(answer, postId));
        }
    }

    /** deleteAnswer: removes the first answer with the given id from the
        first question with the given postId, and returns both ids. */
    method DeleteAnswer(postId: string, id: string) returns (r: Result<DeleteAnswerOutput>)
      modifies this
      ensures PostIndex(old(posts), postId).None? ==>
        r == Err(NotFound(PostNotFound)) && posts == old(posts)
      ensures PostIndex(old(posts), postId).Some? ==>
        var i := PostIndex(old(posts), postId).value;
        var answers := old(posts)[i].answers;
        && (AnswerIndex(answers, id).None? ==>
              r == Err(NotFound(AnswerNotFound)) && posts == old(posts))
        && (AnswerIndex(answers, id).Some? ==>
              && r == Ok(DeleteAnswerOutput(id, postId))
              && posts == old(posts)[i := old(posts)[i].(answers := RemoveAt(answers, AnswerIndex(answers, id).value))])
      ensures PostIds(posts) == PostIds(old(posts))
      ensures old(Valid()) ==> Valid()
      ensures old(UniqueAnswerIds()) ==> UniqueAnswerIds()
      ensures old(UniqueAnswerIds()) && r.Ok? ==>
        AnswerIndex(posts[PostIndex(old(posts), postId).value].answers, id).None?
    {
      var i := FindPost(postId);
      if i.None? {
        r := Err(NotFound(PostNotFound));
        return;
      }
      var answers := posts[i.value].answers;
      var j := FindAnswer(answers, id);
      if j.None? {
        r := Err(NotFound(AnswerNotFound));
        return;
      }
      var post := posts[i.value].(answers := RemoveAt(answers, j.value));
      if Valid() {
        RemovedAnswerIsStoredForm(posts[i.value], j.value);
      }
      if UniqueAnswerIds() {
        RemoveAnswerPreserves(answers, j.value);
      }
      ReplacePostPreserves(posts, i.value, post);
      posts := posts[i.value := post];
      r := Ok(DeleteAnswerOutput(id, postId));
    }
  }
}
