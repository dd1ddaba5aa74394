# Trivia scoring, ranking and validation: a Dafny model

This project models the game logic of the Quarkus trivia application
`rh126-spike` (module `quarkus-single`):

- **Score ledger.** This is `LeaderboardRepository`. It has two hash maps, updated in place:
  - user → set of question ids answered correctly;
  - user → score.

  The only write, `recordAnswer`, credits a correct answer at most once per user and question. The model proves that the score always equals the number of distinct questions credited.
- **Leaderboard.** This is `LeaderboardService.getLeaderboard`. It takes a snapshot of the scores and sorts it by score descending, breaking ties by username ascending. It then ranks the entries 1..N by position. The model proves the board is a permutation of the snapshot, strictly ordered and ranked by position. It also proves that, once each entry's count of questions answered correctly is fixed per user, exactly one list satisfies these conditions.
- **Answer grading.** This is `AnswerService.submitAnswer` and `determineCorrectAnswer`. Input checks run fail-fast and each has its own message. An unknown question gives an empty result. The correct option's position is turned into a label "A".."D". The attempt is recorded in the ledger, and a random next question is attached to the response.
- **Question store and public view.** This is `QuestionRepository` and `QuestionService`:
  - the store is an id-keyed map filled by a last-write-wins insertion loop, with lookup, list-all and random pick;
  - the public `TriviaQuestion` view drops the correctness flags.
- **Username validator.** This is the front-end `UsernameValidator`, in TypeScript. It trims the input, then checks in order:
  - the length is within [2, 30];
  - the characters match `[a-zA-Z0-9\s]+`;
  - the name contains no listed offensive word, compared case-insensitively.
- **Legacy copy.** This is the older ledger and leaderboard of package `com.redhat.demos`.

Layout:

| file | module | what |
|---|---|---|
| `wrappers.dfy` | `Wrappers` | `Option` (Java `null` / `Optional`) |
| `model.dfy` | `Model` | the records: `Answer`, `Question`, `TriviaQuestion`, `AnswerSubmission`, `AnswerResponse`, `LeaderboardEntry`, and `Result` with the exceptions thrown |
| `ledger.dfy` | `Ledger` | the ledger as a value, its invariant, `Record` (the effect of `recordAnswer`) and replay of a history |
| `repository.dfy` | `Repository` | the classes `LeaderboardRepository` and `QuestionRepository` |
| `ranking.dfy` | `Ranking` | comparator, sort, ranking loop, and uniqueness of the leaderboard |
| `service.dfy` | `Service` | the classes `QuestionService`, `LeaderboardService` and `AnswerService` |
| `validator.dfy` | `Validator` | the username validator on UTF-16 code units |
| `legacy.dfy` | `LegacyRepository`, `LegacyService` | the `com.redhat.demos` ledger and leaderboard |

Modelling choices:

- The repositories are classes with `map` fields, changed by methods with `modifies` clauses.
  - A ghost `Valid()` states their invariant.
  - `State()` views the ledger as a `Ledger` value.
- Random choices (`ThreadLocalRandom`) are nondeterministic (`:|`).
- The environment message is a parameter.
- A thrown exception is a `Throws(...)` result.
- The source's paths:
  - all paths are relative to the repository root;
  - the Java sources are under `quarkus-single/src/main/java/com/redhat/demos/`.

## Model

| member | source | states |
|---|---|---|
| Model.NewQuestionCanonical | quarkus-single/src/main/java/com/redhat/demos/redhatone2026/model/Question.java:18-20 | the compact constructor is canonical: a question rebuilt from its own fields equals itself (record equality after the copy), and a null answer list gives the same question as an empty one |
| Ledger.Record | quarkus-single/src/main/java/com/redhat/demos/redhatone2026/repository/LeaderboardRepository.java:36-55 | a wrong answer leaves the ledger unchanged; a correct one adds the question to the user's set; the score rises by exactly one iff the question was new; every other user's set and score are unchanged |
| Ledger.RecordKeepsConsistent | quarkus-single/src/main/java/com/redhat/demos/redhatone2026/repository/LeaderboardRepository.java:45-50 | recording keeps the invariant: the two maps have the same users and each score is the size of that user's non-empty set |
| Ledger.ScoreIsCreditCount | quarkus-single/src/main/java/com/redhat/demos/redhatone2026/repository/LeaderboardRepository.java:63-84 | under the invariant the score equals the number of credited questions; both are 0 for a user never credited |
| Ledger.RecordCorrectIdempotent | quarkus-single/src/main/java/com/redhat/demos/redhatone2026/repository/LeaderboardRepository.java:46-54 | recording the same correct answer twice has the effect of recording it once |
| Ledger.ReplayConsistent | quarkus-single/src/main/java/com/redhat/demos/redhatone2026/repository/LeaderboardRepository.java:36-55 | any history of `recordAnswer` calls keeps the ledger invariant |
| Ledger.ReplayCredits | quarkus-single/src/main/java/com/redhat/demos/redhatone2026/repository/LeaderboardRepository.java:36-55 | after a history, a user's set is the starting set plus exactly the ids that user answered correctly in the history |
| Ledger.ScoreAfterHistory | quarkus-single/src/main/java/com/redhat/demos/redhatone2026/repository/LeaderboardRepository.java:36-65 | starting empty, a user's score after any history is the number of distinct questions that user answered correctly |
| Repository.LeaderboardRepository.constructor | quarkus-single/src/main/java/com/redhat/demos/redhatone2026/repository/LeaderboardRepository.java:21-24 | a new ledger is empty and satisfies the invariant |
| Repository.LeaderboardRepository.RecordAnswer | quarkus-single/src/main/java/com/redhat/demos/redhatone2026/repository/LeaderboardRepository.java:36-55 | the in-place update of both maps leaves exactly `Record` of the old state and keeps the invariant |
| Repository.LeaderboardRepository.GetScore | quarkus-single/src/main/java/com/redhat/demos/redhatone2026/repository/LeaderboardRepository.java:63-65 | the score is the number of credited questions, 0 for an unknown user |
| Repository.LeaderboardRepository.GetAllScores | quarkus-single/src/main/java/com/redhat/demos/redhatone2026/repository/LeaderboardRepository.java:72-74 | the snapshot has exactly the credited users, each mapped to the positive size of its set; it is a value, so later changes do not reach it |
| Repository.LeaderboardRepository.GetQuestionsAnsweredCorrectly | quarkus-single/src/main/java/com/redhat/demos/redhatone2026/repository/LeaderboardRepository.java:82-84 | the count equals `GetScore`, 0 for an unknown user |
| Repository.IdsCount | quarkus-single/src/main/java/com/redhat/demos/redhatone2026/repository/QuestionRepository.java:51-55 | a list has at most as many distinct ids as elements, exactly as many when its ids are distinct |
| Repository.LoadedSize | quarkus-single/src/main/java/com/redhat/demos/redhatone2026/repository/QuestionRepository.java:51-55 | a loaded store holds at most as many questions as the list, exactly as many when ids are distinct |
| Repository.ValuesOf | quarkus-single/src/main/java/com/redhat/demos/redhatone2026/repository/QuestionRepository.java:69-71 | the copied list has the map's size, holds only stored questions, holds every stored question, and holds no id twice |
| Repository.QuestionRepository.constructor | quarkus-single/src/main/java/com/redhat/demos/redhatone2026/repository/QuestionRepository.java:51-53 | after the insertion loop, the keys are exactly the list's ids; each id maps to the last question in the list with that id |
| Repository.QuestionRepository.FindAll | quarkus-single/src/main/java/com/redhat/demos/redhatone2026/repository/QuestionRepository.java:69-71 | a list of exactly the stored questions, each once |
| Repository.QuestionRepository.FindById | quarkus-single/src/main/java/com/redhat/demos/redhatone2026/repository/QuestionRepository.java:79-81 | present iff the id is stored, and then the stored question |
| Repository.QuestionRepository.FindRandom | quarkus-single/src/main/java/com/redhat/demos/redhatone2026/repository/QuestionRepository.java:88-96 | empty iff the store is empty, otherwise some stored question |
| Ranking.StringLess | quarkus-single/src/main/java/com/redhat/demos/redhatone2026/service/LeaderboardService.java:66 | the username order of `String.compareTo`: a string never sorts before itself, and a proper prefix sorts before every longer string that extends it |
| Ranking.Before | quarkus-single/src/main/java/com/redhat/demos/redhatone2026/service/LeaderboardService.java:65-66 | the comparator: an entry sorts before another only with a score at least as high, and with an equal score only when the usernames differ |
| Ranking.StringLessIrreflexive | quarkus-single/src/main/java/com/redhat/demos/redhatone2026/service/LeaderboardService.java:65-66 | the username order (`String.compareTo`) is irreflexive |
| Ranking.StringLessTransitive | quarkus-single/src/main/java/com/redhat/demos/redhatone2026/service/LeaderboardService.java:65-66 | the username order is transitive |
| Ranking.StringLessTotal | quarkus-single/src/main/java/com/redhat/demos/redhatone2026/service/LeaderboardService.java:65-66 | any two distinct usernames are ordered one way or the other |
| Ranking.BeforeIrreflexive | quarkus-single/src/main/java/com/redhat/demos/redhatone2026/service/LeaderboardService.java:65-66 | the comparator (score descending, then username ascending) never puts an entry before itself |
| Ranking.BeforeTransitive | quarkus-single/src/main/java/com/redhat/demos/redhatone2026/service/LeaderboardService.java:65-66 | the comparator is transitive |
| Ranking.BeforeTotal | quarkus-single/src/main/java/com/redhat/demos/redhatone2026/service/LeaderboardService.java:65-66 | entries with distinct usernames are always ordered, so the comparator is a strict total order on map entries |
| Ranking.Sort | quarkus-single/src/main/java/com/redhat/demos/redhatone2026/service/LeaderboardService.java:65-67 | the sorted list is a permutation of its input |
| Ranking.SortSorted | quarkus-single/src/main/java/com/redhat/demos/redhatone2026/service/LeaderboardService.java:65-67 | the sorted list is ordered by the comparator and keeps usernames distinct |
| Ranking.AssignRanks | quarkus-single/src/main/java/com/redhat/demos/redhatone2026/service/LeaderboardService.java:70-79 | the ranking loop keeps length, username, score and count at every position and sets rank to position + 1 |
| Ranking.EntriesOf | quarkus-single/src/main/java/com/redhat/demos/redhatone2026/service/LeaderboardService.java:57-64 | one unranked entry per snapshot user, with that user's score and count, and no username twice |
| Ranking.BuildLeaderboard | quarkus-single/src/main/java/com/redhat/demos/redhatone2026/service/LeaderboardService.java:47-83 | the result is a leaderboard of the snapshot: one entry per user with the user's score; strictly ordered by score descending, then username ascending; rank = index + 1; empty for an empty snapshot; each count is the given count |
| Ranking.LeaderboardCovers | quarkus-single/src/main/java/com/redhat/demos/redhatone2026/service/LeaderboardService.java:57-64 | a leaderboard lists exactly the users of the snapshot |
| Ranking.LeaderboardUnique | quarkus-single/src/main/java/com/redhat/demos/redhatone2026/service/LeaderboardService.java:65-79 | two leaderboards of the same snapshot agree at every position on username, score and rank, so the result does not depend on the map's iteration order |
| Ranking.LeaderboardDetermined | quarkus-single/src/main/java/com/redhat/demos/redhatone2026/service/LeaderboardService.java:57-79 | with the count column given by a per-user count, two leaderboards of the same snapshot are the same list |
| Ranking.LeaderboardOrder | quarkus-single/src/main/java/com/redhat/demos/redhatone2026/service/LeaderboardService.java:65-79 | ranks strictly increase, scores never increase, and equal scores appear in strictly ascending username order |
| Ranking.ScoreOrderExample | quarkus-single/src/test/java/com/redhat/demos/redhatone2026/service/LeaderboardServiceTest.java:73-93 | the scores alice 15, bob 20, charlie 10 give the order bob, alice, charlie |
| Ranking.TiebreakExample | quarkus-single/src/test/java/com/redhat/demos/redhatone2026/service/LeaderboardServiceTest.java:95-115 | three users tied at 10 are ranked alice 1, bob 2, charlie 3 |
| Service.ToTriviaQuestion | quarkus-single/src/main/java/com/redhat/demos/redhatone2026/service/QuestionService.java:88-103 | the view carries id, text, the environment message, and the texts of answers 0..3 in order; with fewer than four answers it throws at the first missing index |
| Service.TriviaHidesCorrectness | quarkus-single/src/main/java/com/redhat/demos/redhatone2026/service/QuestionService.java:95-103 | the view exposes no correctness flag: re-flagging the answers in any way leaves it unchanged |
| Service.QuestionService.constructor | quarkus-single/src/main/java/com/redhat/demos/redhatone2026/service/QuestionService.java:25-34 | keeps the given repository |
| Service.QuestionService.GetAllQuestions | quarkus-single/src/main/java/com/redhat/demos/redhatone2026/service/QuestionService.java:41-43 | exactly the stored questions, each once |
| Service.QuestionService.GetQuestionById | quarkus-single/src/main/java/com/redhat/demos/redhatone2026/service/QuestionService.java:52-61 | a null id throws `IllegalArgumentException("Question ID cannot be null")`, and only a null id does; otherwise the result is present iff the id is stored, and then it is the stored question |
| Service.QuestionService.GetRandomQuestion | quarkus-single/src/main/java/com/redhat/demos/redhatone2026/service/QuestionService.java:68-70 | empty iff the store is empty, otherwise some stored question |
| Service.QuestionService.GetRandomTriviaQuestion | quarkus-single/src/main/java/com/redhat/demos/redhatone2026/service/QuestionService.java:79-107 | empty iff the store is empty; otherwise the view of some stored question with the given environment message, or that view's exception |
| Service.LeaderboardService.constructor | quarkus-single/src/main/java/com/redhat/demos/redhatone2026/service/LeaderboardService.java:20-25 | keeps the given repository |
| Service.LeaderboardService.RecordAnswer | quarkus-single/src/main/java/com/redhat/demos/redhatone2026/service/LeaderboardService.java:35-38 | forwards its arguments unchanged: the ledger changes exactly by `Record` and keeps its invariant |
| Service.LeaderboardService.GetLeaderboard | quarkus-single/src/main/java/com/redhat/demos/redhatone2026/service/LeaderboardService.java:47-83 | the result is a leaderboard of the current scores; each entry's count is the repository's count for that user and equals the user's score |
| Service.CheckSubmission | quarkus-single/src/main/java/com/redhat/demos/redhatone2026/service/AnswerService.java:56-68 | the checks run in order: null or empty username gives "Invalid username"; then a null question id gives "Invalid questionId"; then a null selection or one outside A..D gives "Invalid answer selection"; no error iff all three pass |
| Service.FirstCorrect | quarkus-single/src/main/java/com/redhat/demos/redhatone2026/service/AnswerService.java:115-117 | the position of the first answer flagged correct, or none when no answer is flagged |
| Service.CorrectAnswerOf | quarkus-single/src/main/java/com/redhat/demos/redhatone2026/service/AnswerService.java:114-128 | the first flagged position i gives label "A".."D" for i < 4, and "Invalid answer index" for i >= 4; no flagged answer throws "No correct answer"; the result is a label iff one of the first four answers is flagged |
| Service.GradingMatchesFlags | quarkus-single/src/main/java/com/redhat/demos/redhatone2026/service/AnswerService.java:114-128 | for a question with four answers and exactly one flagged, grading succeeds; a label is graded correct iff its answer is flagged |
| Service.AnswerService.constructor | quarkus-single/src/main/java/com/redhat/demos/redhatone2026/service/AnswerService.java:27-42 | keeps the given services |
| Service.AnswerService.DetermineCorrectAnswer | quarkus-single/src/main/java/com/redhat/demos/redhatone2026/service/AnswerService.java:114-128 | the scanning loop returns exactly `CorrectAnswerOf` |
| Service.AnswerService.SubmitAnswer | quarkus-single/src/main/java/com/redhat/demos/redhatone2026/service/AnswerService.java:51-106 | invalid input throws the first failing check's error and leaves the ledger unchanged; an unknown question gives empty and leaves the ledger unchanged; a grading error throws and leaves the ledger unchanged; otherwise the answer is graded, recorded exactly once by `Record`, and answered with the verdict, label, question and a random next question |
| Validator.Trim | quarkus-single/src/main/resources/web/utils/validator.ts:28 | the result is the input with its leading and trailing whitespace removed: a contiguous slice after the leading whitespace, followed only by whitespace, and empty or bounded by non-whitespace |
| Validator.TrimIdempotent | quarkus-single/src/main/resources/web/utils/validator.ts:28 | trimming twice is trimming once |
| Validator.TrimIgnoresPadding | quarkus-single/src/main/resources/web/utils/validator.ts:28 | whitespace added on either side does not change the trimmed string |
| Validator.ValidateLength | quarkus-single/src/main/resources/web/utils/validator.ts:71-75 | true iff the trimmed length is within [2, 30] |
| Validator.MatchesPattern | quarkus-single/src/main/resources/web/utils/validator.ts:14 | the pattern `/^[a-zA-Z0-9\s]+$/`: a matching string is non-empty, and every code unit in it is ASCII or whitespace |
| Validator.ValidateCharacters | quarkus-single/src/main/resources/web/utils/validator.ts:80-82 | true iff the trimmed string is non-empty and every code unit is an ASCII letter, digit or whitespace; then it starts with a letter or digit |
| Validator.ContainsOffensiveLanguage | quarkus-single/src/main/resources/web/utils/validator.ts:60-66 | the lower-cased name includes some lower-cased listed word; no name shorter than the shortest word (8 code units) is flagged |
| Validator.Validate | quarkus-single/src/main/resources/web/utils/validator.ts:26-55 | valid iff there is no error, iff the length, character and offensive-word checks all pass on the trimmed input; the first failing check, in that order, decides the message |
| Validator.ValidateIgnoresPadding | quarkus-single/src/main/resources/web/utils/validator.ts:28 | surrounding whitespace never changes the verdict or the message |
| Validator.AcceptedShape | quarkus-single/src/main/resources/web/utils/validator.ts:30-44 | an accepted name trims to 2..30 letters, digits and inner whitespace, starting and ending with a letter or digit |
| Validator.OffensiveRejected | quarkus-single/src/main/resources/web/utils/validator.ts:60-66 | a name containing any listed word, in any ASCII letter case and surrounded by anything, is rejected |
| LegacyRepository.LeaderboardRepository.constructor | quarkus-single/src/main/java/com/redhat/demos/repository/LeaderboardRepository.java:20-23 | a new ledger is empty and satisfies the invariant |
| LegacyRepository.LeaderboardRepository.RecordAnswer | quarkus-single/src/main/java/com/redhat/demos/repository/LeaderboardRepository.java:35-46 | the in-place update leaves exactly `Record` of the old state and keeps the invariant, as in the current ledger |
| LegacyRepository.LeaderboardRepository.GetScore | quarkus-single/src/main/java/com/redhat/demos/repository/LeaderboardRepository.java:54-56 | the score is the number of credited questions, 0 for an unknown user |
| LegacyRepository.LeaderboardRepository.GetAllScores | quarkus-single/src/main/java/com/redhat/demos/repository/LeaderboardRepository.java:63-65 | the snapshot has exactly the credited users, each mapped to the positive size of its set |
| LegacyService.LeaderboardService.constructor | quarkus-single/src/main/java/com/redhat/demos/service/LeaderboardService.java:19-24 | keeps the given repository |
| LegacyService.LeaderboardService.RecordAnswer | quarkus-single/src/main/java/com/redhat/demos/service/LeaderboardService.java:34-36 | forwards its arguments unchanged: the ledger changes exactly by `Record` |
| LegacyService.LeaderboardService.GetLeaderboard | quarkus-single/src/main/java/com/redhat/demos/service/LeaderboardService.java:45-75 | the result is a leaderboard of the current scores; each score is the repository's score and each count is the supplied count |

## Left out

- HTTP resources (`AnswerResource`, `QuestionResource`, `LeaderboardResource`, `IndexResource`, in both packages): routing and the mapping of exceptions to status codes are plumbing.
- Reading and parsing `questions.json` in `QuestionRepository.init`, and the `IllegalStateException` thrown when the file is missing or malformed: file I/O and JSON parsing. The constructor takes the parsed list and models the insertion loop.
- `EnvironmentRepository`: its random pick among constant messages becomes the `environment` parameter.
  - Consequently `SubmitAnswer` draws the next question's message from that parameter.
  - In the source the message is requested before the four answers are read, a difference with no observable effect.
- Randomness: `findRandom` and the message pick are nondeterministic choices, with no probability distribution.
- Concurrency: the beans share unsynchronised hash maps. Every operation is modelled as sequential and atomic.
- Logging: it has no behaviour.
- The `com.redhat.demos` `QuestionService` is not part of this model: it builds a `TriviaQuestion` with seven arguments while its package's record has six fields, and its logic is that of the current service.
- Null checks on constructor arguments: Dafny references are never null.
- Null elements inside an answer list: an answer is never null in the model.
- A null submission: `submitAnswer(null)` throws a `NullPointerException` when it first reads the submission's fields. In the model a submission is always present, so that exception is not modelled.
- Null fields of the records read from the questions file: ids and texts are always present values in the model. Two source behaviours are therefore not captured:
  - a `Question` whose `id` is null is stored under the null key by `init`, and `findAll` and `findRandom` still return it;
  - an `Answer` whose `text` is null is copied as null into the `TriviaQuestion`.
- The front-end `app.ts` and `storage.ts`: DOM handling and browser storage.
- Repository.LeaderboardRepository.RecordAnswer: scores are unbounded integers, so the 32-bit wrap-around of `Integer::sum` (after more than 2^31 - 1 distinct questions) is not modelled.
- LegacyRepository.LeaderboardRepository.RecordAnswer: the same `merge(username, 1, Integer::sum)` (`com/redhat/demos/repository/LeaderboardRepository.java`, line 44) is modelled on unbounded integers, so its 32-bit wrap-around is not modelled either.
- Ranking.StringLess: usernames are compared lexicographically on Dafny characters. Java's `String.compareTo` compares UTF-16 code units, which orders characters above U+FFFF differently.
- Ranking.Sort: this is an insertion sort rather than the stream's merge sort. `LeaderboardUnique` proves that any ordering meeting the comparator gives the same board, so the result is the same.
- LegacyService.LeaderboardService.GetLeaderboard: the source calls `getQuestionsAnsweredCorrectly`, which the older repository does not declare (`com/redhat/demos/service/LeaderboardService.java`, line 56). The per-user count is therefore a parameter, and nothing is promised about it beyond being copied into each entry.
- Validator.ContainsOffensiveLanguage: `toLowerCase` is modelled on ASCII letters only. This is exact wherever the check is reached, because the character check has already admitted only ASCII letters, digits and whitespace. `OffensiveRejected` is stated for words whose ASCII lower case is listed.
- Validator.IsSpace: JavaScript's `trim` and the regular expression's `\s` are one predicate, the ECMAScript WhiteSpace and LineTerminator code points. In the source they agree on this set.
