/**
 * Record shapes and the static task catalogue of the 75 Hard tracker
 * (src/types/database.ts).
 *
 * Calendar dates are day ordinals: the stored 'yyyy-MM-dd' strings compare
 * and subtract exactly like the integers they name.
 */
module Types {

  datatype Option<+T> = None | Some(value: T)

  /** A calendar date as a day ordinal. */
  type Date = int

  /** The seven kinds of daily task. */
  datatype TaskKey = Workout1 | Workout2 | Water | Read | Diet | Photo | RestRecovery

  datatype Mood = Energetic | Okay | Low | Anxious

  datatype Symptom = Cramps | Headache | Cravings | Fatigue | Bloating

  /** The moods offered by the daily log, in display order. */
  const Moods: seq<Mood> := [Energetic, Okay, Low, Anxious]

  /** The symptom tags offered by the daily log, in display order. */
  const Symptoms: seq<Symptom> := [Cramps, Headache, Cravings, Fatigue, Bloating]

  /** One row of `user_settings`, without its owner and timestamps. */
  datatype UserSettings = UserSettings(
    pmsSafeEnabled: bool,
    cycleLength: int,
    pmsWindowLength: int,
    cycleDay1Date: Option<Date>)

  /** One row of `challenge_days` of the (single) user. */
  datatype ChallengeDay = ChallengeDay(
    dayNumber: int,
    date: Date,
    notes: string,
    mood: Option<Mood>,
    symptoms: seq<Symptom>,
    isCompleted: bool)

  /**
   * One row of `tasks`. A challenge day is identified by its day number,
   * which is unique per user.
   */
  datatype Task = Task(
    challengeDayId: int,
    key: TaskKey,
    title: string,
    required: bool,
    completed: bool,
    variant: Option<string>)

  /** An entry of the task catalogue; an absent `pmsOnly` reads as false. */
  datatype TaskDef = TaskDef(key: TaskKey, title: string, required: bool, pmsOnly: bool)

  /** The catalogue every challenge day's tasks are materialised from. */
  const DefaultTasks: seq<TaskDef> := [
    TaskDef(Workout1, "Workout 1 (45 min)", true, false),
    TaskDef(Workout2, "Workout 2 (45 min)", true, false),
    TaskDef(Water, "Drink water (1 gallon)", true, false),
    TaskDef(Read, "Read 10 pages", true, false),
    TaskDef(Diet, "Follow diet", true, false),
    TaskDef(Photo, "Progress photo", true, false),
    TaskDef(RestRecovery, "Rest & Recovery", false, true)
  ]

  /** No key is listed twice. */
  predicate DistinctKeys(cat: seq<TaskDef>)
  {
    forall i, j :: 0 <= i < j < |cat| ==> cat[i].key != cat[j].key
  }

  /** The seven task kinds, as a set. */
  const AllTaskKeys: set<TaskKey> := {Workout1, Workout2, Water, Read, Diet, Photo, RestRecovery}

  /** The catalogue entry of a task kind. */
  function Entry(k: TaskKey): (e: TaskDef)
    ensures e in DefaultTasks && e.key == k
  {
    match k
    case Workout1 => DefaultTasks[0]
    case Workout2 => DefaultTasks[1]
    case Water => DefaultTasks[2]
    case Read => DefaultTasks[3]
    case Diet => DefaultTasks[4]
    case Photo => DefaultTasks[5]
    case RestRecovery => DefaultTasks[6]
  }

  /** Every task kind is in AllTaskKeys, and there are seven of them. */
  lemma TaskKeysEnumerated()
    ensures forall k: TaskKey :: k in AllTaskKeys
    ensures |AllTaskKeys| == 7
  {
    forall k: TaskKey ensures k in AllTaskKeys {
      match k
      case Workout1 => case Workout2 => case Water => case Read =>
      case Diet => case Photo => case RestRecovery =>
    }
  }

  /** The catalogue has seven entries with pairwise distinct keys. */
  lemma CatalogDistinct()
    ensures |DefaultTasks| == 7
    ensures DistinctKeys(DefaultTasks)
  {
  }

  /** Every catalogue entry is the entry of its own key. */
  lemma CatalogEntries()
    ensures forall e :: e in DefaultTasks ==> e == Entry(e.key)
  {
    forall i | 0 <= i < |DefaultTasks| ensures DefaultTasks[i] == Entry(DefaultTasks[i].key) {
    }
  }

  /**
   * Exactly one entry, the rest & recovery task, is window-only, and it is
   * the only entry that is not required.
   */
  lemma CatalogFlags()
    ensures forall e :: e in DefaultTasks ==> (e.pmsOnly <==> e.key == RestRecovery)
    ensures forall e :: e in DefaultTasks ==> (e.required <==> !e.pmsOnly)
  {
  }

  /** The mood and symptom lists each name every value once. */
  lemma LogChoicesComplete()
    ensures forall m: Mood :: m in Moods
    ensures forall i, j :: 0 <= i < j < |Moods| ==> Moods[i] != Moods[j]
    ensures forall s: Symptom :: s in Symptoms
    ensures forall i, j :: 0 <= i < j < |Symptoms| ==> Symptoms[i] != Symptoms[j]
  {
    forall m: Mood ensures m in Moods {
      match m
      case Energetic => assert Moods[0] == m;
      case Okay => assert Moods[1] == m;
      case Low => assert Moods[2] == m;
      case Anxious => assert Moods[3] == m;
    }
    forall s: Symptom ensures s in Symptoms {
      match s
      case Cramps => assert Symptoms[0] == s;
      case Headache => assert Symptoms[1] == s;
      case Cravings => assert Symptoms[2] == s;
      case Fatigue => assert Symptoms[3] == s;
      case Bloating => assert Symptoms[4] == s;
    }
  }
}
