# Q&A store: a verified model

This project models the server core of a small question-and-answer
application. The server keeps one in-memory, ordered list of question
records, `POSTS`. Each record has an id, a question text and an ordered
list of answers, and each answer has an id and a text.

Seven remote procedures read or change the list:

- `getAll` and `getOne` read it;
- `create`, `update` and `delete` work on questions;
- `addAnswer` and `deleteAnswer` work on answers.

Before a procedure body runs, its input is checked against a validation
schema. The schema trims every question and answer text. A trimmed answer
text must be at least ten UTF-16 code units long. A trimmed question text
must be that long and must also end with `?`. Ids may be any string.

The model has four modules:

- `Sequences` (`sequences.dfy`) holds `RemoveAt`, the effect of `splice(i, 1)` on a list, and the `Distinct` predicate.
- `Schema` (`schema.dfy`) holds the schema as pure functions: JavaScript's `trim`, the UTF-16 length, the text rules with their messages, and the validators for answer and question records. Lemmas state what each rule accepts and rejects:
  - trimming is unique, idempotent and ignores padding;
  - acceptance is idempotent, and an accepted value is the input with its whitespace padding removed;
  - a record is in stored form exactly when every one of its texts is;
  - every kind of edit the store makes keeps a record in stored form.
- `Questions` (`questions.dfy`) holds the store as the class `Store`, which has one `seq<Question>` field:
  - each procedure is a method whose `ensures` gives the result and the whole new state, error cases included;
  - lookups are linear scans proved equal to a "first matching index" function;
  - three store-wide invariants are preserved by every procedure: every stored text is trimmed and valid (`Valid`), question ids are distinct, and answer ids are distinct within each question; the two id invariants are preserved under the freshness premise on supplied ids;
  - the seed record is proved to satisfy all three.
- `Scenarios` (`scenarios.dfy`) holds call sequences a client may make, with what the contracts let it conclude. Examples: the record that `create` returns is what `getOne` finds; a second `deleteAnswer` with the same ids fails.

Failures are values. `BadRequest` carries the schema's messages, as the
server's BAD_REQUEST does. `NotFound` carries "Post not found" or
"Answer not found". New ids come from the server's random number
generator; here the caller of `Create` and `AddAnswer` passes them in as
`freshId`. Id uniqueness is therefore preserved only when the caller
supplies an id that is not already in use.

## Model

| member | source | states |
|---|---|---|
| Sequences.RemoveAt | src/server/api/routers/questions.ts:73 | `splice(i, 1)` with `i` in range: one element shorter; the elements before `i` keep their positions and the ones after it move down by one |
| Sequences.RemoveAtDistinct | src/server/api/routers/questions.ts:137 | removing an element from a list without repeats keeps it without repeats and leaves no copy of the removed element |
| Schema.IsWhitespace | src/server/api/routers/schema.ts:12 | the characters `trim` removes: the ECMAScript WhiteSpace and LineTerminator code points; its meaning is used through Trim, TrimSplits and TrimOfPadded |
| Schema.Trim | src/server/api/routers/schema.ts:12 | the trimmed text has no whitespace at either end |
| Schema.TrimSplits | src/server/api/routers/schema.ts:12 | every text is some whitespace, then its trimmed form, then some whitespace |
| Schema.TrimOfPadded | src/server/api/routers/schema.ts:12 | trim is determined by that property: padding an unpadded text with whitespace on both sides and trimming gives back that text |
| Schema.TrimIgnoresPadding | src/server/api/routers/schema.ts:5 | adding whitespace on either side does not change the trimmed form |
| Schema.TrimKeepsUnpadded | src/server/api/routers/schema.ts:5 | a text with no whitespace at either end is its own trimmed form |
| Schema.TrimIdempotent | src/server/api/routers/schema.ts:12 | trimming twice is trimming once |
| Schema.Utf16Length | src/server/api/routers/schema.ts:13 | the length the minimum check reads, in UTF-16 code units, is never less than the number of characters |
| Schema.EndsWithQuestionMark | src/server/api/routers/schema.ts:14 | `v.endsWith("?")`: the text is non-empty and its last character is `?`; used by QuestionTextRule and QuestionTextOfPadded |
| Schema.ValidateAnswerText | src/server/api/routers/schema.ts:5 | the answer-text validator; its contract is stated by AnswerTextRule and AnswerTextOfPadded |
| Schema.ValidateQuestionText | src/server/api/routers/schema.ts:10-14 | the question-text validator; its contract is stated by QuestionTextRule and QuestionTextOfPadded |
| Schema.ValidateId | src/server/api/routers/schema.ts:4 | the id validator (`z.string()`, also line 9); its contract is stated by IdRule |
| Schema.AnswerTextRule | src/server/api/routers/schema.ts:5 | an answer text is accepted if and only if its trimmed form has at least 10 code units; the accepted value is the trimmed form; a rejection carries exactly the minimum-length message |
| Schema.QuestionTextRule | src/server/api/routers/schema.ts:10-14 | a question text is accepted if and only if its trimmed form has at least 10 code units and ends with `?`; the accepted value is the trimmed form; a rejection carries "Must be at least 10 characters long" exactly when the length check fails and "Must end with a question mark" exactly when the `?` check fails |
| Schema.IdRule | src/server/api/routers/schema.ts:4 | every string, the empty one included, is accepted as an id, unchanged (also `questionSchema.id`, line 9) |
| Schema.AnswerTextOfPadded | src/server/api/routers/schema.ts:5 | stated without Trim: a text made of whitespace, an unpadded core and whitespace is accepted as that core exactly when the core has at least 10 code units, and is rejected with the one minimum-length message otherwise |
| Schema.QuestionTextOfPadded | src/server/api/routers/schema.ts:10-14 | stated without Trim: a text made of whitespace, an unpadded core and whitespace is accepted as that core exactly when the core has at least 10 code units and ends with `?`; a rejection lists the length message and then the question-mark message, each exactly when its check fails |
| Schema.AcceptedTextIsStripped | src/server/api/routers/schema.ts:11-14 | an accepted text is non-empty, has no whitespace at either end, and the input is whitespace + accepted value + whitespace |
| Schema.ValidationIdempotent | src/server/api/routers/schema.ts:10-14 | validating an accepted value again accepts it with the same value, for question and answer texts alike |
| Schema.ValidationIgnoresPadding | src/server/api/routers/schema.ts:10-14 | whitespace padding never changes a verdict, a value or a message |
| Schema.ParseAnswer | src/server/api/routers/schema.ts:3-6 | an answer record is accepted if and only if its text is; the id is kept and the text is trimmed; a rejection carries the text's messages |
| Schema.ParseAnswers | src/server/api/routers/schema.ts:15 | an answers array is accepted if and only if every element is; the accepted array has the same length and holds the accepted elements in order; a rejection has at least one message |
| Schema.ParseQuestion | src/server/api/routers/schema.ts:8-16 | a question record is accepted if and only if its text and every answer text are; the accepted record keeps the id and answer ids and carries the trimmed texts; a rejection has at least one message |
| Schema.IsStoredForm | src/server/api/routers/schema.ts:8-16 | the stored-text invariant for one record: it passes the question schema unchanged; characterized by StoredFormIff |
| Schema.StoredFormIff | src/server/api/routers/schema.ts:8-16 | a record passes the schema unchanged exactly when its text and each answer text are accepted as themselves |
| Schema.NewQuestionIsStoredForm | src/server/api/routers/questions.ts:37-41 | the record that `create` builds from an accepted text passes the schema unchanged |
| Schema.ReplacedTextIsStoredForm | src/server/api/routers/questions.ts:60 | replacing the text of a valid stored record with an accepted text keeps it in stored form |
| Schema.AppendedAnswerIsStoredForm | src/server/api/routers/questions.ts:97-102 | appending an answer with an accepted text keeps a record in stored form |
| Schema.RemovedAnswerIsStoredForm | src/server/api/routers/questions.ts:137 | removing any answer keeps a record in stored form |
| Questions.IndexOf | src/server/api/routers/questions.ts:66 | `findIndex`: None exactly when no element matches; otherwise a matching index with no match before it |
| Questions.IndexOfIsFirst | src/server/api/routers/questions.ts:66 | IndexOf returns `i` if and only if `i` is the first position holding the id |
| Questions.PostIndex | src/server/api/routers/questions.ts:32 | the first question with the id: None exactly when there is none |
| Questions.AnswerIndex | src/server/api/routers/questions.ts:129 | the first answer with the id: None exactly when there is none |
| Questions.FindAnswer | src/server/api/routers/questions.ts:129 | the linear answer scan returns the first matching index, or None |
| Questions.AppendPostPreserves | src/server/api/routers/questions.ts:42 | `push` keeps the stored-form invariant and answer-id uniqueness, and keeps question ids distinct when the new id is unused |
| Questions.ReplacePostPreserves | src/server/api/routers/questions.ts:60 | changing a record in place without changing its id keeps the list of ids and the invariants the new record meets |
| Questions.RemovePostPreserves | src/server/api/routers/questions.ts:73 | `splice` on questions keeps every invariant; when ids are distinct, no record with the removed id remains |
| Questions.SingletonPreserves | src/server/api/routers/questions.ts:6-23 | a one-record store meets every invariant its record meets |
| Questions.AppendAnswerPreserves | src/server/api/routers/questions.ts:102 | pushing an answer whose id is unused in its question keeps that question's answer ids distinct |
| Questions.RemoveAnswerPreserves | src/server/api/routers/questions.ts:137 | `splice` on distinct answer ids keeps them distinct and leaves no answer with the removed id |
| Questions.SeedQuestion | src/server/api/routers/questions.ts:6-23 | the seed record: question "1" with answers "1" and "2" and the source's texts; its properties are stated by SeedTextsValid and SeedStoreInvariants |
| Questions.SeedShapeInvariants | src/server/api/routers/questions.ts:6-23 | a store shaped like the seed (question "1" with answers "1" and "2") whose texts are already trimmed and valid meets every invariant |
| Questions.SeedTextsValid | src/server/api/routers/questions.ts:9-19 | the seed texts have no outer whitespace and are long enough, and the seed question ends with `?` |
| Questions.SeedStoreInvariants | src/server/api/routers/questions.ts:6-23 | the seed store passes the schema and has distinct question ids and distinct answer ids |
| Questions.Store.Valid | src/server/api/routers/questions.ts:6 | the store-wide invariant that every stored record passes the schema unchanged; established by the constructor and kept by every procedure |
| Questions.Store.constructor | src/server/api/routers/questions.ts:6-23 | the store starts as the seed record alone and satisfies all three invariants |
| Questions.Store.GetAll | src/server/api/routers/questions.ts:26-28 | `getAll` returns the whole store in insertion order and changes nothing |
| Questions.Store.FindPost | src/server/api/routers/questions.ts:53 | the linear question scan (`find`/`findIndex`) returns the first matching index, or None |
| Questions.Store.GetOne | src/server/api/routers/questions.ts:29-33 | `getOne` returns None exactly when no question has the id, otherwise the first one that has it; it never fails and changes nothing |
| Questions.Store.Create | src/server/api/routers/questions.ts:34-44 | a rejected text gives BAD_REQUEST with the schema's messages and no change; an accepted one appends exactly one record (supplied id, trimmed text, no answers) at the end and returns it; the invariants are preserved, question-id uniqueness when the id is unused |
| Questions.Store.Update | src/server/api/routers/questions.ts:45-62 | BAD_REQUEST on a rejected text; "Post not found" and no change on an absent id; otherwise only the text of the first matching record changes, it is returned, and the ids and invariants are kept |
| Questions.Store.Delete | src/server/api/routers/questions.ts:63-75 | "Post not found" and no change on an absent id; otherwise the store becomes the old store without the first matching record, the call returns the id and keeps the invariants; with distinct ids the id is gone |
| Questions.Store.AddAnswer | src/server/api/routers/questions.ts:76-107 | BAD_REQUEST on a rejected text; "Post not found" and no change on an absent question; otherwise exactly one answer (supplied id, trimmed text) is appended to the first matching question, and the answer with that question's id is returned; the invariants are kept, answer-id uniqueness when the id is unused in the question it is added to |
| Questions.Store.DeleteAnswer | src/server/api/routers/questions.ts:108-142 | "Post not found", or "Answer not found", each with no change; otherwise only the first matching answer of the first matching question is removed, the rest keep their order, and both ids are returned; with distinct answer ids that answer is gone |
| Scenarios.CreateThenGetOne | src/server/api/routers/questions.ts:29-44 | after `create` with an accepted text and an unused id, `getOne` on that id finds exactly the created record |
| Scenarios.RejectedCreateChangesNothing | src/server/api/routers/questions.ts:34-36 | `create` with a rejected text fails with BAD_REQUEST and leaves any store as it was |
| Scenarios.DeleteAnswerTwice | src/server/api/routers/questions.ts:120-141 | with distinct answer ids, repeating `deleteAnswer` always fails with NOT_FOUND: "Answer not found" after a success, the first failure again otherwise |
| Scenarios.DeleteThenGetOne | src/server/api/routers/questions.ts:63-75 | with distinct question ids, `delete` succeeds exactly when the id was present and `getOne` then finds nothing |
| Scenarios.DeleteSecondAnswer | src/server/api/routers/questions.ts:108-142 | on a store shaped like the seed, deleting answer "2" of question "1" returns both ids and leaves answer "1" alone |
| Scenarios.SeedDeleteAnswer | src/server/api/routers/questions.ts:6-23 | the same on the seed store itself |

## Left out

- The tRPC layer (router, procedure wiring, `TRPCError` transport) is not modelled. Failures are a `Failure` value with the code and message.
- Zod's issue objects are reduced to their messages: path, issue code and the ordering zod uses across fields are left out. Within a question text, the length message comes before the question-mark message, as the checks are declared.
- Inputs that are not strings, or miss a field, are not modelled: every input here is a string. Zod would reject them with a type error.
- `Math.random().toString()` ids (questions.ts lines 39 and 99) are replaced by the `freshId` parameter, because randomness and floating-point formatting are out of scope.
- Questions.Store.Create: keeps question ids distinct only when `freshId` is unused, because the random ids of the server give no such guarantee.
- Questions.Store.AddAnswer: keeps answer ids distinct only when `freshId` is unused among the answers of the question it is added to, because the random ids of the server give no such guarantee.
- The answer that `addAnswer` stores also carries the input's `postId` field, because it is built by spreading the input. The model's `Answer` holds only the id and the text, as the schema types it.
- Aliasing is not modelled: records are values. The server's `getAll` and `getOne` hand out live references to the stored objects.
- Uniqueness of ids: the schema allows any string as an id, the empty one included, and the model follows the code on this. Nothing in the server enforces distinct ids. Distinct ids are therefore stated as invariants that the procedures preserve under the freshness premise, not as facts about every store.
- The JavaScript whitespace set is fixed as the ECMAScript WhiteSpace and LineTerminator code points (Unicode 15 space separators). UTF-16 length counts a code point above U+FFFF as two units; Dafny characters are Unicode scalar values, so lone surrogates do not arise.
- AnswerTooShort: the answer rule's message is Zod 3's default for a failed minimum of 10; the Zod version is not fixed by the source, and other major versions word this message differently.
- Schema.Utf16Length: only its lower bound (at least one unit per character) is stated as a contract.
- The page component (`src/pages/[id]/index.page.tsx`), the formatter configuration and any persistence are not part of this model. No concurrency is modelled: each procedure runs to completion before the next.
