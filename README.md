# Quiz commands

A Dafny model of the quiz commands of a command-line quiz application:
`create`, `test`, `play`, `update` and `delete`. The commands work on a
small database with three tables: users, quizzes and scores.

The project has three modules:

- `Answers` (answers.dfy) is how `test` and `play` judge a reply. Both the
  reply and the stored answer are lowered with `toLowerCase()` and trimmed
  with `trim()`, and the reply is right when the two results are equal.
  `trim` strips exactly the characters ECMAScript counts as WhiteSpace or
  LineTerminator. The verdict `Matches` is proved equivalent to a reference
  definition: equal up to letter case once the surrounding blanks are gone.
  It is also proved to ignore case and padding, and to be an equivalence.
- `Store` (store.dfy) holds the rows of the three tables as values, plus the
  two queries the commands make. One is the quizzes a `play` round may still
  draw (`id NOT IN resolved`). The other is the first user with a given
  name.
- `Quizzes` (quizzes.dfy) holds the commands.
  - The database is a class `Db` whose methods update its tables in place.
  - `play`'s loop is `RunSession`, a method with a `while` loop. It is
    proved against `IsSession`, a declarative description of a finished
    session:
    - every round draws, at the random offset, one of the quizzes not
      asked yet;
    - every reply before the last one was right;
    - the session stops when no quiz is left or on the first wrong reply.
  - `SessionIsDeterministic` shows that `IsSession` fixes the outcome once
    the two oracles are fixed.

What each command reads from the terminal becomes a parameter: the user
name, the question, the answer, the quiz id or the reply. In `play`, the
player's replies are an oracle `reply(round)`. The random choice
`Math.floor(Math.random() * count)` is an oracle `random(round, count)`,
whose only assumed property is that it is below `count` when `count` is
positive.

## Model

| member | source | states |
|---|---|---|
| Answers.LowerChar | cmds_quiz.js:52 | lowering one character yields no upper-case letter; it keeps a blank a blank and a non-blank a non-blank; it changes only `A`-`Z`, each to the letter 32 code points above |
| Answers.ToLower | cmds_quiz.js:52 | `s.toLowerCase()` has the length of `s`, lowers each character in place, leaves no upper-case letter, and keeps every blank a blank and every non-blank a non-blank |
| Answers.LeadingBlanksFacts | cmds_quiz.js:52 | the counted leading characters are all blanks, and the character after them is not a blank |
| Answers.TrailingBlanksFacts | cmds_quiz.js:52 | the counted trailing characters are all blanks, and the character before them is not a blank |
| Answers.Trim | cmds_quiz.js:52 | `s.trim()` is never longer than `s`; `TrimIsUnique` and `TrimFacts` characterise it fully |
| Answers.TrimIsUnique | cmds_quiz.js:52 | `trim` returns exactly the part of a string that lies between an all-blank prefix and an all-blank suffix and neither starts nor ends with a blank |
| Answers.TrimFacts | cmds_quiz.js:52 | the trimmed string is no longer than the input; it is empty exactly when the input is all blanks; otherwise its first and last characters are not blanks |
| Answers.TrimIgnoresPadding | cmds_quiz.js:52 | adding blanks before or after a string does not change what `trim` returns |
| Answers.TrimToLower | cmds_quiz.js:52 | lowering and then trimming gives the same string as trimming and then lowering |
| Answers.Normalize | cmds_quiz.js:52 | `x.toLowerCase().trim()` is never longer than `x` and holds no upper-case letter |
| Answers.NormalizeFacts | cmds_quiz.js:52 | `x.toLowerCase().trim()` is the lowered trimmed string; it is empty exactly when `x` is all blanks; it holds no upper-case letter |
| Answers.Matches | cmds_quiz.js:52 | the `===` of `test` (and, negated, the `!==` of `play` at line 80): a reply judged right is all blanks exactly when the stored answer is; `MatchesIffEqualIgnoringCase` gives the full characterisation |
| Answers.MatchesIffEqualIgnoringCase | cmds_quiz.js:52 | a reply is judged right exactly when its trimmed form equals the trimmed stored answer up to the case of ASCII letters (both directions) |
| Answers.MatchesIgnoresCase | cmds_quiz.js:80 | two replies that differ only in letter case get the same verdict |
| Answers.MatchesIgnoresPadding | cmds_quiz.js:80 | blanks before or after a reply do not change the verdict |
| Answers.MatchesIsEquivalence | cmds_quiz.js:52 | the verdict is reflexive, symmetric and transitive |
| Answers.RightReplyExample | cmds_quiz.js:52 | the reply " Paris " is right for the answer "paris" |
| Answers.WrongReplyExample | cmds_quiz.js:80 | the reply "Pari s" is wrong for the answer "paris": blanks inside a reply count |
| Store.Unasked | cmds_quiz.js:66-67 | every row of the `id NOT IN resolved` query is an existing quiz id in range that was not asked |
| Store.UnaskedComplete | cmds_quiz.js:66-67 | every existing quiz id in range that was not asked is among the query's rows |
| Store.UnaskedCount | cmds_quiz.js:66-67 | when every quiz id is below `hi`, the query has exactly as many rows as there are quizzes not yet asked, which is the `count` the loop reads |
| Store.DistinctCard | cmds_quiz.js:67 | a repeat-free list of ids has as many elements as its set of ids |
| Store.UnaskedIncreasing | cmds_quiz.js:71-75 | the rows, read without an ORDER BY, come in ascending id order |
| Store.FirstNamed | cmds_quiz.js:25 | the lookup returns a user with that name and no earlier id has that name; it returns nothing exactly when no user has that name |
| Store.DistinctAppend | cmds_quiz.js:77 | appending an id that is not yet in `resolved` keeps `resolved` free of repeats |
| Store.DistinctBound | cmds_quiz.js:77 | a repeat-free list of quiz ids is no longer than the number of quizzes |
| Quizzes.Pick | cmds_quiz.js:71-75 | the quiz at the random offset among the unasked rows exists, was not asked before, and has an id in range |
| Quizzes.DrawnExtend | cmds_quiz.js:71-77 | pushing the id that round's draw picked extends a run of draws |
| Quizzes.RightRepliesExtend | cmds_quiz.js:79-84 | a right reply to the quiz just drawn extends a run of right replies by one |
| Quizzes.DrawnFacts | cmds_quiz.js:66-77 | a run of draws never repeats a quiz id; it asks only existing quizzes; it is no longer than the quiz table |
| Quizzes.SessionFacts | cmds_quiz.js:61-86 | in a finished session, no quiz was asked twice and score <= number asked <= number of quizzes; when no reply was wrong, every quiz was asked |
| Quizzes.DrawnPrefix | cmds_quiz.js:64-77 | every prefix of a run of draws is itself a run of draws |
| Quizzes.DrawnNext | cmds_quiz.js:66-77 | round n drew from a non-empty set of unasked rows, and it drew the quiz picked after the rounds before it |
| Quizzes.DrawnAgree | cmds_quiz.js:64-77 | with the same random oracle, a shorter run of draws is a prefix of a longer one |
| Quizzes.SessionNotShorter | cmds_quiz.js:64-86 | with the same oracles, neither of two sessions stops before the other |
| Quizzes.SessionIsDeterministic | cmds_quiz.js:64-86 | with the same oracles, two sessions have the same asked ids and the same score |
| Quizzes.RunSession | cmds_quiz.js:61-86 | the loop ends, and the result is a session as `IsSession` describes it; `resolved` has no repeats; the score is at most the number of quizzes; when the loop ended for lack of quizzes, every quiz was asked |
| Quizzes.Db.FindUser | cmds_quiz.js:25 | returns the lowest-id user with that name; it returns nothing exactly when no user has that name |
| Quizzes.Db.Create | cmds_quiz.js:24-39 | an unknown user fails with UserNotFound; otherwise an empty question or answer fails with EmptyResponse; a failure changes no quiz; success adds exactly one new quiz under a fresh id, authored by the looked-up user; the invariant is kept |
| Quizzes.Db.Test | cmds_quiz.js:46-56 | fails with QuizNotFound exactly when the id has no quiz; otherwise the verdict is `Matches(reply, answer)`; it changes nothing |
| Quizzes.Db.FindOrCreateUser | cmds_quiz.js:92 | an existing user named `name` is returned with the users unchanged; otherwise exactly one user with that name and age 0 is added under a fresh id |
| Quizzes.Db.Play | cmds_quiz.js:60-94 | the session on the quiz table is one `IsSession` describes; the player is found or created (age 0); exactly one score row, with the session's score and the player's id, is appended; the quiz table is not in the frame |
| Quizzes.Db.Update | cmds_quiz.js:114-125 | an unknown id fails with NullQuiz; otherwise an empty question or answer fails with EmptyResponse; a failure changes nothing; success replaces only that quiz's question and answer and keeps its author |
| Quizzes.Db.Destroy | cmds_quiz.js:134 | removes the row with that id, if there is one, and reports 1 or 0 rows removed |
| Quizzes.Db.Delete | cmds_quiz.js:133-136 | fails with NothingDeleted exactly when no quiz has the id; in every case, afterwards exactly that id is gone and the other quizzes are untouched |

## Left out

- Terminal I/O: the `rl.questionP` prompts and the `rl.log` messages. Prompted values are parameters, and an error's message is named in a comment on the `Error` constructor.
- The ORM and SQL layer. Tables are maps from id to row. A query without an ORDER BY is read in ascending id order, and auto-increment ids are a counter that starts at 1 for quizzes.
- `Math.random()` and its floating point. The offset `Math.floor(Math.random() * count)` is the oracle `random(round, count)`, which is assumed to be below `count`.
- `toLowerCase` beyond ASCII. Only `A`-`Z` are lowered; full Unicode case mapping (including mappings that change the length) is not modelled. `trim` is modelled exactly.
- `Number(id)` in `test` and `update`, and the string id in `delete`. Ids are integers from the start.
- Asynchrony. In particular, `player.createScore` in `play` is not awaited; the model appends the score row at once.
- The ORM timestamps. Rows carry no `createdAt` or `updatedAt`. So the `createdAt` that `scores` prints is not modelled, nor the update timestamp that `quiz.save` in `update` refreshes.
- `list` and `scores`, which only read and print.
- The schema file that defines the tables and the seed users is not part of this model; the constructor takes the initial users as a parameter.
- The cascade that removes a deleted quiz's favourites. Favourites are not part of this model.
- Quizzes.Db.Update: a missing id makes the command raise a TypeError when it reads a field of the null row. This is modelled as the error `NullQuiz`, not as a JavaScript TypeError.
- Quizzes.Db.Update: the instance is changed and then saved with `fields: ["question", "answer"]`. This is modelled as replacing the row's value with the two fields changed.
