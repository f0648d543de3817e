/** Clients of the store: sequences of procedure calls and what the
    procedures' contracts let a caller conclude about them. */
module Scenarios {
  import opened Sequences
  import opened Schema
  import opened Questions

  /** create followed by getOne on the new id finds exactly the created
      record: the trimmed text and no answers.  This needs the supplied id
      to be new; with a repeated id getOne finds the older record first. */
  method CreateThenGetOne(store: Store, text: string, freshId: string)
    returns (created: Result<Question>, found: Option<Question>)
    requires ValidateQuestionText(text).Accepted?
    requires PostIndex(store.posts, freshId).None?
    modifies store
    ensures created == Ok(Question(freshId, Trim(text), []))
    ensures found == Some(created.value)
  {
    created := store.Create(text, freshId);
    found := store.GetOne(freshId);
    assert store.posts[|store.posts| - 1].id == freshId;
  }

  /** A rejected text leaves the store as it was, whatever it is. */
  method RejectedCreateChangesNothing(store: Store, text: string, freshId: string)
    returns (created: Result<Question>)
    requires ValidateQuestionText(text).Rejected?
    modifies store
    ensures created.Err? && created.failure.BadRequest?
    ensures store.posts == old(store.posts)
  {
    created := store.Create(text, freshId);
  }

  /** deleteAnswer is not idempotent: when answer ids are unique within
      each question, repeating a call always fails with NOT_FOUND, with
      "Answer not found" if the first call succeeded and with the first
      call's own failure otherwise. */
  method DeleteAnswerTwice(store: Store, postId: string, id: string)
    returns (first: Result<DeleteAnswerOutput>, second: Result<DeleteAnswerOutput>)
    requires store.UniqueAnswerIds()
    modifies store
    ensures first.Ok? ==> second == Err(NotFound(AnswerNotFound))
    ensures first.Err? ==> second == first
    ensures second.Err? && second.failure.NotFound?
  {
    first := store.DeleteAnswer(postId, id);
    second := store.DeleteAnswer(postId, id);
  }

  /** Deleting a question makes it unreachable when question ids are
      unique: getOne then finds nothing under that id. */
  method DeleteThenGetOne(store: Store, id: string)
    returns (deleted: Result<string>, found: Option<Question>)
    requires store.UniquePostIds()
    modifies store
    ensures deleted.Ok? <==> PostIndex(old(store.posts), id).Some?
    ensures found == None
  {
    deleted := store.Delete(id);
    found := store.GetOne(id);
  }

  /** A store shaped like the seed store (question "1" with answers "1" and
      "2", whatever the texts): deleteAnswer on question "1" and answer "2"
      returns both ids, and getOne on "1" then shows the question with only
      answer "1" left. */
  method DeleteSecondAnswer(store: Store, question: string, first: string, second: string)
    returns (deleted: Result<DeleteAnswerOutput>, found: Option<Question>)
    requires store.posts == [Question("1", question, [Answer("1", first), Answer("2", second)])]
    modifies store
    ensures deleted == Ok(DeleteAnswerOutput("2", "1"))
    ensures found == Some(Question("1", question, [Answer("1", first)]))
  {
    var answers := store.posts[0].answers;
    assert PostIndex(store.posts, "1") == Some(0) by {
      IndexOfIsFirst(PostIds(store.posts), "1", 0);
    }
    assert AnswerIndex(answers, "2") == Some(1) by {
      IndexOfIsFirst(AnswerIds(answers), "2", 1);
    }
    assert RemoveAt(answers, 1) == [Answer("1", first)];
    deleted := store.DeleteAnswer("1", "2");
    found := store.GetOne("1");
  }

  /** The same on the seed store itself. */
  method SeedDeleteAnswer() returns (deleted: Result<DeleteAnswerOutput>, found: Option<Question>)
    ensures deleted == Ok(DeleteAnswerOutput("2", "1"))
    ensures found == Some(Question("1", SeedQuestionText, [Answer("1", SeedAnswerText1)]))
  {
    var store := new Store();
    deleted, found := DeleteSecondAnswer(store, SeedQuestionText, SeedAnswerText1, SeedAnswerText2);
  }
}
