/** The per-user record of the bot, the record a first subscription creates,
    and the phrase catalog loaded at start-up (config.go). */
module UserConfigs {

  /** One subscriber. The cached `*time.Location` of the Go struct is a
      derived, never-persisted cache and is not part of the model. */
  datatype UserConfig = UserConfig(
    userId: int,
    userName: string,
    message: string,
    startTime: int,
    endTime: int,
    interval: int,
    active: bool,
    timeZone: string,
    sentPhrasesIndices: seq<int>)

  /** The store of subscribers, keyed by chat id. */
  type Users = map<int, UserConfig>

  const DefaultMessage: string := "💖 Я люблю тебя! 💖"
  const DefaultStartTime: int := 8
  const DefaultEndTime: int := 22
  const DefaultInterval: int := 120
  const DefaultTimeZone: string := "Europe/Samara"
  const FallbackTimeZone: string := "UTC"

  /** The settings every command keeps valid: a non-wrapping window of whole
      hours inside one day, and an interval between one minute and one day. */
  predicate WellFormed(u: UserConfig) {
    && 0 <= u.startTime < u.endTime <= 23
    && 1 <= u.interval <= 1440
  }

  /** `createDefaultUser(userID, userName)`. Whether the tz database can
      resolve "Europe/Samara" on the host is the parameter `samaraLoads`:
      when it cannot, the record falls back to "UTC". */
  function CreateDefaultUser(id: int, name: string, samaraLoads: bool): (u: UserConfig)
    ensures u.userId == id && u.userName == name
    ensures u.message == DefaultMessage
    ensures u.startTime == 8 && u.endTime == 22 && u.interval == 120
    ensures u.active && u.sentPhrasesIndices == []
    ensures u.timeZone == (if samaraLoads then "Europe/Samara" else "UTC")
    ensures WellFormed(u)
  {
    var user := UserConfig(id, name, DefaultMessage, DefaultStartTime, DefaultEndTime,
                           DefaultInterval, true, DefaultTimeZone, []);
    if samaraLoads then user else user.(timeZone := FallbackTimeZone)
  }

  /* ---------------------------------------------------------------------
     The phrase catalog
     --------------------------------------------------------------------- */

  /** The three built-in phrases used when the catalog file cannot be read. */
  const DefaultPhrases: seq<string> := [
    "💖 Я люблю тебя! 💖",
    "🌟 Ты особенный человек! 🌟",
    "🌹 Ты украшаешь мой день! 🌹"
  ]

  /** What reading and decoding "phrases.json" produced. */
  datatype PhraseFile =
    | Unreadable                       // os.ReadFile failed
    | Malformed                        // the bytes are not a JSON list of strings
    | Decoded(phrases: seq<string>)    // json.Unmarshal succeeded

  /** `loadPhrases`: the catalog after loading, given the catalog held before
      (`prior`, empty for the freshly built configuration). Only a read
      failure falls back to the built-in phrases; a decoding failure is
      logged and the prior catalog is kept, and a decoded empty list is
      accepted as is. */
  function LoadPhrases(prior: seq<string>, file: PhraseFile): (catalog: seq<string>)
    ensures file.Unreadable? ==> catalog == DefaultPhrases && |catalog| == 3
    ensures file.Malformed? ==> catalog == prior
    ensures file.Decoded? ==> catalog == file.phrases
  {
    match file
    case Unreadable => DefaultPhrases
    case Malformed => prior
    case Decoded(p) => p
  }

  /** Only the read-failure path guarantees a non-empty catalog: at start-up
      (`prior` empty) a malformed file or a decoded empty list leaves the bot
      without any phrase, which the rotation cannot work with. */
  lemma LoadPhrasesEmptyExactly(file: PhraseFile)
    ensures |LoadPhrases([], file)| == 0 <==> file.Malformed? || file == Decoded([])
  {
  }
}
