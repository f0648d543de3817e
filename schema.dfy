/** The validation schema of the Q&A store: the rules for answer texts,
    question texts and whole question records.

    A text is validated in three steps, in this order: it is trimmed of
    surrounding whitespace, the trimmed value must be at least ten UTF-16
    code units long, and (for a question) the trimmed value must end with a
    question mark.  An accepted text is the trimmed value; a rejected one
    carries one message per rule it breaks.  Ids are accepted as they are. */
module Schema {
  import opened Sequences

  // ---------------------------------------------------------------------
  // Records
  // ---------------------------------------------------------------------

  /** An answer: an opaque id and its text. */
  datatype Answer = Answer(id: string, answer: string)

  /** A question: an opaque id, its text and its answers in insertion order. */
  datatype Question = Question(id: string, question: string, answers: seq<Answer>)

  /** The outcome of validating a value: the accepted (normalised) value, or
      the messages of the rules it breaks. */
  datatype Validated<T> = Accepted(value: T) | Rejected(messages: seq<string>)

  // ---------------------------------------------------------------------
  // Rules and messages
  // ---------------------------------------------------------------------

  /** Smallest accepted length of a trimmed question or answer text. */
  const MinLength: nat := 10

  const QuestionTooShort: string := "Must be at least 10 characters long"
  const QuestionMarkMissing: string := "Must end with a question mark"
  /** The answer rule gives no message of its own; this is Zod 3's default
      message for a failed minimum-length check of 10. */
  const AnswerTooShort: string := "String must contain at least 10 character(s)"

  // ---------------------------------------------------------------------
  // Trimming
  // ---------------------------------------------------------------------

  /** The characters that JavaScript's String.prototype.trim removes: the
      WhiteSpace and LineTerminator code points of ECMAScript (tab, vertical
      tab, form feed, the byte order mark, the space separators of category
      Zs, line feed, carriage return, and the line and paragraph separators). */
  predicate IsWhitespace(c: char)
  {
    c == '\t' || c == '\n' || c == '\U{B}' || c == '\U{C}' || c == '\r'
    || c == ' ' || c == '\U{A0}' || c == '\U{1680}'
    || ('\U{2000}' <= c <= '\U{200A}')
    || c == '\U{2028}' || c == '\U{2029}' || c == '\U{202F}' || c == '\U{205F}'
    || c == '\U{3000}' || c == '\U{FEFF}'
  }

  /** Every character of s[lo..hi] is whitespace. */
  predicate WhitespaceBetween(s: string, lo: nat, hi: nat)
    requires lo <= hi <= |s|
  {
    forall k :: lo <= k < hi ==> IsWhitespace(s[k])
  }

  /** Every character of `s` is whitespace. */
  predicate AllWhitespace(s: string)
  {
    WhitespaceBetween(s, 0, |s|)
  }

  /** Neither the first nor the last character is whitespace. */
  predicate NoOuterWhitespace(s: string)
  {
    s == [] || (!IsWhitespace(s[0]) && !IsWhitespace(s[|s| - 1]))
  }

  /** The index of the first non-whitespace character of `s` at or after `i`,
      or |s| when there is none. */
  function TextStart(s: string, i: nat): (n: nat)
    requires i <= |s|
    ensures i <= n <= |s| && WhitespaceBetween(s, i, n)
    ensures n < |s| ==> !IsWhitespace(s[n])
    decreases |s| - i
  {
    if i < |s| && IsWhitespace(s[i]) then TextStart(s, i + 1) else i
  }

  /** The index just after the last non-whitespace character of s[lo..j],
      or `lo` when there is none. */
  function TextEnd(s: string, lo: nat, j: nat): (m: nat)
    requires lo <= j <= |s|
    ensures lo <= m <= j && WhitespaceBetween(s, m, j)
    ensures lo < m ==> !IsWhitespace(s[m - 1])
    decreases j
  {
    if lo < j && IsWhitespace(s[j - 1]) then TextEnd(s, lo, j - 1) else j
  }

  /** `s` with its surrounding whitespace removed (String.prototype.trim). */
  function Trim(s: string): (r: string)
    ensures NoOuterWhitespace(r)
  {
    var a := TextStart(s, 0);
    s[a..TextEnd(s, a, |s|)]
  }

  /** `s` is a whitespace prefix, Trim(s), and a whitespace suffix. */
  lemma TrimSplits(s: string) returns (p: string, q: string)
    ensures AllWhitespace(p) && AllWhitespace(q) && s == p + Trim(s) + q
  {
    var a := TextStart(s, 0);
    var b := TextEnd(s, a, |s|);
    p, q := s[..a], s[b..];
    assert s == s[..a] + s[a..b] + s[b..];
  }

  /** TextStart stops exactly at the first non-whitespace character. */
  lemma {:induction false} TextStartAt(s: string, i: nat, n: nat)
    requires i <= n <= |s| && WhitespaceBetween(s, i, n)
    requires n < |s| ==> !IsWhitespace(s[n])
    ensures TextStart(s, i) == n
    decreases n - i
  {
    if i < n {
      TextStartAt(s, i + 1, n);
    }
  }

  /** TextEnd stops exactly after the last non-whitespace character. */
  lemma {:induction false} TextEndAt(s: string, lo: nat, j: nat, m: nat)
    requires lo <= m <= j <= |s| && WhitespaceBetween(s, m, j)
    requires lo < m ==> !IsWhitespace(s[m - 1])
    ensures TextEnd(s, lo, j) == m
    decreases j - m
  {
    if m < j {
      TextEndAt(s, lo, j - 1, m);
    }
  }

  /** Trim is the unique strip: whenever `s` is whitespace, a text with no
      whitespace at either end, and whitespace, Trim(s) is that text. */
  lemma TrimOfPadded(p: string, t: string, q: string)
    requires AllWhitespace(p) && AllWhitespace(q) && NoOuterWhitespace(t)
    ensures Trim(p + t + q) == t
  {
    var s := p + t + q;
    if t == [] {
      TextStartAt(s, 0, |s|);
      TextEndAt(s, |s|, |s|, |s|);
    } else {
      TextStartAt(s, 0, |p|);
      TextEndAt(s, |p|, |s|, |p| + |t|);
      assert s[|p|..|p| + |t|] == t;
    }
  }

  /** Whitespace padding around a text never changes its trimmed form. */
  lemma TrimIgnoresPadding(p: string, s: string, q: string)
    requires AllWhitespace(p) && AllWhitespace(q)
    ensures Trim(p + s + q) == Trim(s)
  {
    var r := Trim(s);
    var p0, q0 := TrimSplits(s);
    var p', q' := p + p0, q0 + q;
    assert p + s + q == p' + r + q';
    TrimOfPadded(p', r, q');
  }

  /** A text with no whitespace at either end is its own trimmed form. */
  lemma TrimKeepsUnpadded(s: string)
    requires NoOuterWhitespace(s)
    ensures Trim(s) == s
  {
    assert s == [] + s + [];
    TrimOfPadded([], s, []);
  }

  /** Trimming twice is trimming once. */
  lemma TrimIdempotent(s: string)
    ensures Trim(Trim(s)) == Trim(s)
  {
    TrimKeepsUnpadded(Trim(s));
  }

  // ---------------------------------------------------------------------
  // Length in UTF-16 code units
  // ---------------------------------------------------------------------

  /** The length JavaScript reports for `s`: one code unit per character of
      the Basic Multilingual Plane, and one more (a surrogate pair) for each
      character outside it. */
  function Utf16Length(s: string): (n: nat)
    ensures n >= |s|
  {
    |s| + |set k | 0 <= k < |s| && s[k] as int > 0xFFFF|
  }

  predicate EndsWithQuestionMark(s: string)
  {
    |s| > 0 && s[|s| - 1] == '?'
  }

  // ---------------------------------------------------------------------
  // Text validators
  // ---------------------------------------------------------------------

  /** The answer-text rule: trim, then at least ten code units. */
  function ValidateAnswerText(s: string): (r: Validated<string>)
  {
    var t := Trim(s);
    if Utf16Length(t) < MinLength then Rejected([AnswerTooShort]) else Accepted(t)
  }

  /** The question-text rule: trim, then at least ten code units, then a
      final question mark.  Both checks read the trimmed value and both are
      reported when both fail, the length message first. */
  function ValidateQuestionText(s: string): (r: Validated<string>)
  {
    var t := Trim(s);
    var messages :=
      (if Utf16Length(t) < MinLength then [QuestionTooShort] else [])
      + (if EndsWithQuestionMark(t) then [] else [QuestionMarkMissing]);
    if messages == [] then Accepted(t) else Rejected(messages)
  }

  /** Ids are plain strings: every string is accepted unchanged. */
  function ValidateId(s: string): (r: Validated<string>)
  {
    Accepted(s)
  }

  /** An answer text is accepted exactly when its trimmed form is at least
      ten code units long; the accepted value is the trimmed form, and a
      rejection carries the one length message. */
  lemma AnswerTextRule(s: string)
    ensures ValidateAnswerText(s).Accepted? <==> Utf16Length(Trim(s)) >= MinLength
    ensures ValidateAnswerText(s).Accepted? ==> ValidateAnswerText(s).value == Trim(s)
    ensures ValidateAnswerText(s).Rejected? ==> ValidateAnswerText(s).messages == [AnswerTooShort]
  {
  }

  /** A question text is accepted exactly when its trimmed form is at least
      ten code units long and ends with '?'; the accepted value is the
      trimmed form; a rejection names exactly the rules that failed. */
  lemma QuestionTextRule(s: string)
    ensures ValidateQuestionText(s).Accepted?
      <==> Utf16Length(Trim(s)) >= MinLength && EndsWithQuestionMark(Trim(s))
    ensures ValidateQuestionText(s).Accepted? ==> ValidateQuestionText(s).value == Trim(s)
    ensures ValidateQuestionText(s).Rejected? ==>
      && (QuestionTooShort in ValidateQuestionText(s).messages <==> Utf16Length(Trim(s)) < MinLength)
      && (QuestionMarkMissing in ValidateQuestionText(s).messages <==> !EndsWithQuestionMark(Trim(s)))
      && 1 <= |ValidateQuestionText(s).messages| <= 2
  {
  }

  /** Every string, the empty one included, is an accepted id. */
  lemma IdRule(s: string)
    ensures ValidateId(s) == Accepted(s)
  {
  }

  /** The answer rule stated without Trim: for a text that is whitespace,
      an unpadded core `v` and whitespace, the verdict depends on `v` alone,
      and an accepted text is `v` itself. */
  lemma AnswerTextOfPadded(p: string, v: string, q: string)
    requires AllWhitespace(p) && AllWhitespace(q) && NoOuterWhitespace(v)
    ensures ValidateAnswerText(p + v + q) ==
      if Utf16Length(v) >= MinLength then Accepted(v) else Rejected([AnswerTooShort])
  {
    TrimOfPadded(p, v, q);
  }

  /** The question rule stated without Trim: for a text that is whitespace,
      an unpadded core `v` and whitespace, it is accepted exactly when `v`
      is at least ten code units long and ends with '?', as `v` itself; a
      rejection lists the length message, then the question-mark message,
      each exactly when its check fails on `v`. */
  lemma QuestionTextOfPadded(p: string, v: string, q: string)
    requires AllWhitespace(p) && AllWhitespace(q) && NoOuterWhitespace(v)
    ensures ValidateQuestionText(p + v + q).Accepted?
      <==> Utf16Length(v) >= MinLength && EndsWithQuestionMark(v)
    ensures ValidateQuestionText(p + v + q).Accepted? ==> ValidateQuestionText(p + v + q).value == v
    ensures ValidateQuestionText(p + v + q).Rejected? ==>
      ValidateQuestionText(p + v + q).messages ==
        (if Utf16Length(v) < MinLength then [QuestionTooShort] else [])
        + (if EndsWithQuestionMark(v) then [] else [QuestionMarkMissing])
  {
    TrimOfPadded(p, v, q);
  }

  /** An accepted text is the input stripped of whitespace padding: it has
      no whitespace at either end and the input is whitespace, the accepted
      value, whitespace. */
  lemma {:induction false} AcceptedTextIsStripped(s: string)
    requires ValidateQuestionText(s).Accepted? || ValidateAnswerText(s).Accepted?
    ensures var v := Trim(s);
      && (ValidateQuestionText(s).Accepted? ==> ValidateQuestionText(s).value == v)
      && (ValidateAnswerText(s).Accepted? ==> ValidateAnswerText(s).value == v)
      && NoOuterWhitespace(v) && |v| >= 1
      && exists p, q :: AllWhitespace(p) && AllWhitespace(q) && s == p + v + q
  {
    var p, q := TrimSplits(s);
  }

  /** Validation is idempotent: an accepted text is accepted again, as itself. */
  lemma ValidationIdempotent(s: string)
    ensures ValidateQuestionText(s).Accepted? ==>
      ValidateQuestionText(ValidateQuestionText(s).value) == ValidateQuestionText(s)
    ensures ValidateAnswerText(s).Accepted? ==>
      ValidateAnswerText(ValidateAnswerText(s).value) == ValidateAnswerText(s)
  {
    TrimIdempotent(s);
  }

  /** Whitespace padding never changes a verdict, a value or a message. */
  lemma ValidationIgnoresPadding(p: string, s: string, q: string)
    requires AllWhitespace(p) && AllWhitespace(q)
    ensures ValidateQuestionText(p + s + q) == ValidateQuestionText(s)
    ensures ValidateAnswerText(p + s + q) == ValidateAnswerText(s)
  {
    TrimIgnoresPadding(p, s, q);
  }

  // ---------------------------------------------------------------------
  // Record validators
  // ---------------------------------------------------------------------

  /** The answer record rule: any id, a valid answer text. */
  function ParseAnswer(a: Answer): (r: Validated<Answer>)
    ensures r.Accepted? <==> ValidateAnswerText(a.answer).Accepted?
    ensures r.Accepted? ==> r.value == Answer(a.id, ValidateAnswerText(a.answer).value)
    ensures r.Rejected? ==> r.messages == ValidateAnswerText(a.answer).messages
  {
    match ValidateAnswerText(a.answer)
    case Accepted(t) => Accepted(a.(answer := t))
    case Rejected(m) => Rejected(m)
  }

  /** The answers array rule: every element must be a valid answer record;
      the accepted value keeps the order and the ids and trims every text,
      and a rejection carries the messages of every failing element. */
  function ParseAnswers(xs: seq<Answer>): (r: Validated<seq<Answer>>)
    ensures r.Accepted? <==> forall k :: 0 <= k < |xs| ==> ParseAnswer(xs[k]).Accepted?
    ensures r.Accepted? ==>
      && |r.value| == |xs|
      && forall k :: 0 <= k < |xs| ==> r.value[k] == ParseAnswer(xs[k]).value
    ensures r.Rejected? ==> r.messages != []
  {
    if xs == [] then Accepted([])
    else
      assert forall k :: 1 <= k < |xs| ==> xs[k] == xs[1..][k - 1];
      AnswerTextRule(xs[0].answer);
      match (ParseAnswer(xs[0]), ParseAnswers(xs[1..]))
      case (Accepted(a), Accepted(rest)) => Accepted([a] + rest)
      case (Accepted(_), Rejected(m)) => Rejected(m)
      case (Rejected(m), Accepted(_)) => Rejected(m)
      case (Rejected(m), Rejected(m')) => Rejected(m + m')
  }

  /** The question record rule: any id, a valid question text and valid
      answers.  The accepted record keeps the id and the answer ids. */
  function ParseQuestion(q: Question): (r: Validated<Question>)
    ensures r.Accepted? <==>
      ValidateQuestionText(q.question).Accepted?
      && forall k :: 0 <= k < |q.answers| ==> ValidateAnswerText(q.answers[k].answer).Accepted?
    ensures r.Accepted? ==>
      && r.value.id == q.id
      && r.value.question == ValidateQuestionText(q.question).value
      && |r.value.answers| == |q.answers|
      && forall k :: 0 <= k < |q.answers| ==>
           r.value.answers[k] == Answer(q.answers[k].id, ValidateAnswerText(q.answers[k].answer).value)
    ensures r.Rejected? ==> r.messages != []
  {
    var id := ValidateId(q.id);
    match (ValidateQuestionText(q.question), ParseAnswers(q.answers))
    case (Accepted(t), Accepted(xs)) => Accepted(Question(id.value, t, xs))
    case (Accepted(_), Rejected(m)) => Rejected(m)
    case (Rejected(m), Accepted(_)) => Rejected(m)
    case (Rejected(m), Rejected(m')) => Rejected(m + m')
  }

  /** A record in stored form: it passes the question schema unchanged. */
  predicate IsStoredForm(q: Question)
  {
    ParseQuestion(q) == Accepted(q)
  }

  /** A record is in stored form exactly when its text and every answer text
      are each accepted as themselves. */
  lemma StoredFormIff(q: Question)
    ensures IsStoredForm(q) <==>
      ValidateQuestionText(q.question) == Accepted(q.question)
      && forall k :: 0 <= k < |q.answers| ==>
           ValidateAnswerText(q.answers[k].answer) == Accepted(q.answers[k].answer)
  {
    var r := ParseQuestion(q);
    if ValidateQuestionText(q.question) == Accepted(q.question)
      && forall k :: 0 <= k < |q.answers| ==>
           ValidateAnswerText(q.answers[k].answer) == Accepted(q.answers[k].answer)
    {
      assert r.value.answers == q.answers;
    }
  }

  /** A freshly created record with an accepted text is in stored form. */
  lemma NewQuestionIsStoredForm(id: string, s: string)
    requires ValidateQuestionText(s).Accepted?
    ensures IsStoredForm(Question(id, ValidateQuestionText(s).value, []))
  {
    ValidationIdempotent(s);
    StoredFormIff(Question(id, ValidateQuestionText(s).value, []));
  }

  /** Replacing the text of a stored record by an accepted text keeps it
      in stored form. */
  lemma ReplacedTextIsStoredForm(q: Question, s: string)
    requires IsStoredForm(q) && ValidateQuestionText(s).Accepted?
    ensures IsStoredForm(q.(question := ValidateQuestionText(s).value))
  {
    ValidationIdempotent(s);
    StoredFormIff(q);
    StoredFormIff(q.(question := ValidateQuestionText(s).value));
  }

  /** Appending an answer with an accepted text keeps a record in stored form. */
  lemma AppendedAnswerIsStoredForm(q: Question, id: string, s: string)
    requires IsStoredForm(q) && ValidateAnswerText(s).Accepted?
    ensures IsStoredForm(q.(answers := q.answers + [Answer(id, ValidateAnswerText(s).value)]))
  {
    var q' := q.(answers := q.answers + [Answer(id, ValidateAnswerText(s).value)]);
    ValidationIdempotent(s);
    StoredFormIff(q);
    StoredFormIff(q');
    assert forall k :: 0 <= k < |q.answers| ==> q'.answers[k] == q.answers[k];
  }

  /** Removing one answer keeps a record in stored form. */
  lemma RemovedAnswerIsStoredForm(q: Question, i: nat)
    requires IsStoredForm(q) && i < |q.answers|
    ensures IsStoredForm(q.(answers := RemoveAt(q.answers, i)))
  {
    StoredFormIff(q);
    StoredFormIff(q.(answers := RemoveAt(q.answers, i)));
  }
}
