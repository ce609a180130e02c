/** The record shapes of the tracker: one catalog item together with its
    completion state, as declared in src/interfaces/Types.ts. */
module Types {

  /** A value that may be absent (`null` in the source). */
  datatype Option<+T> = None | Some(value: T)

  /** The three difficulty levels a catalog item can have. */
  datatype Difficulty = Easy | Medium | Hard

  /** The external archive reference, which the source types as `number | string`. */
  datatype ExternalRef = RefNumber(number: int) | RefText(text: string)

  /** One problem of the curriculum. The first seven fields come from the catalog;
      `completed` and `completedDate` are the progress state layered over it.
      `completedDate` is an opaque timestamp (an ISO date string in the source). */
  datatype Problem = Problem(
    title: string,
    day: int,
    week: int,
    theme: string,
    difficulty: Difficulty,
    leetcode: ExternalRef,
    technique: string,
    completed: bool,
    completedDate: Option<string>)

  /** The spelling of a difficulty in the source's string union. */
  function DifficultyName(d: Difficulty): string {
    match d
    case Easy => "Easy"
    case Medium => "Medium"
    case Hard => "Hard"
  }

  /** Two items agree on every catalog field; only the progress fields may differ. */
  predicate SameEntry(p: Problem, q: Problem) {
    && p.title == q.title
    && p.day == q.day
    && p.week == q.week
    && p.theme == q.theme
    && p.difficulty == q.difficulty
    && p.leetcode == q.leetcode
    && p.technique == q.technique
  }
}
