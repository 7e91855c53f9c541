/**
 * The records and enumerations of types.ts.
 * Timestamps (the source's ISO date strings) are integers: milliseconds since the epoch.
 */
module Types {

  import opened Wrappers

  /** JLPT level of a word (types.ts:11). */
  datatype Level = N1 | N2 | N3 | N4 | N5 | Other

  /** Enrichment state of a word (types.ts:15). */
  datatype Status = Pending | Completed | Failed

  /** The three screens of the application (types.ts:18). */
  datatype AppMode = List | Review | Stats

  /** What an enrichment provider returns: all five fields are present (types.ts:20-26). */
  datatype Suggestion = Suggestion(
    reading: string,
    meaning: string,
    example: string,
    exampleTranslation: string,
    mnemonic: string)

  /** A point in time, in milliseconds since the epoch. */
  type Time = int

  /**
   * A vocabulary entry (types.ts:2-16). The three optional fields of the source are `Option`s;
   * `masteryLevel` is an unconstrained number in the source, so it is an `int` here and its
   * documented range is the invariant `MasteryInRange`.
   */
  datatype Word = Word(
    id: string,
    kanji: string,
    reading: string,
    meaning: string,
    example: Option<string>,
    exampleTranslation: Option<string>,
    mnemonic: Option<string>,
    category: string,
    level: Level,
    masteryLevel: int,
    nextReviewDate: Time,
    createdAt: Time,
    status: Status)

  const MinMastery: int := 0
  const MaxMastery: int := 5

  /** The range the comment at types.ts:12 documents. */
  predicate MasteryInRange(w: Word) {
    MinMastery <= w.masteryLevel <= MaxMastery
  }

  /** The string the source stores in `level`, which is also its key in the stats dictionary. */
  function LevelName(l: Level): string {
    match l
    case N1 => "N1"
    case N2 => "N2"
    case N3 => "N3"
    case N4 => "N4"
    case N5 => "N5"
    case Other => "Other"
  }

  /** Every level, in declaration order. */
  const AllLevels: seq<Level> := [N1, N2, N3, N4, N5, Other]

  lemma AllLevelsComplete(l: Level)
    ensures l in AllLevels
  {
  }
}
