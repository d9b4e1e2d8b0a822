/** The effect of `handleMessage` (bot.go) on the user store: one pure
    transition per command. Replies are not modelled, and saving the store
    has no effect on it, so only the resulting map is observed. Records are
    keyed by the id of the chat the message came from (`message.Chat.ID`):
    the user in a private chat, the whole group in a group chat. */
module Commands {
  import opened GoText
  import opened UserConfigs
  import opened Rotation

  /** Handling a message either yields the new store or crashes the process
      (a Go runtime panic). */
  datatype Outcome = Ok(users: Users) | Panic

  /** What every record created and edited by commands satisfies: it is
      stored under its own id and its settings are well formed. Records read
      back from "users.json" are never validated and need not satisfy it. */
  predicate StoreInvariant(users: Users) {
    forall id :: id in users ==> users[id].userId == id && WellFormed(users[id])
  }

  /** Every sent list in the store is one the rotation could have built for
      a catalog of `n` phrases. */
  predicate StoreSentWellFormed(users: Users, n: nat) {
    forall id :: id in users ==> SentWellFormed(users[id].sentPhrasesIndices, n)
  }

  /** `after` is `before` with nothing changed except under `id`. */
  predicate OthersUnchanged(before: Users, after: Users, id: int) {
    forall other :: other in before && other != id ==> other in after && after[other] == before[other]
  }

  /* ---------------------------------------------------------------------
     /start and /stop
     --------------------------------------------------------------------- */

  /** `/start`: creates the default record for an unknown id, then marks the
      record active. An existing record keeps all its other settings. */
  function Start(users: Users, id: int, name: string, samaraLoads: bool): (r: Users)
    ensures r.Keys == users.Keys + {id}
    ensures r[id].active
    ensures id !in users ==> r[id] == CreateDefaultUser(id, name, samaraLoads)
    ensures id in users ==> r[id] == users[id].(active := true)
    ensures OthersUnchanged(users, r, id)
  {
    var registered := if id in users then users else users[id := CreateDefaultUser(id, name, samaraLoads)];
    registered[id := registered[id].(active := true)]
  }

  /** `/stop`: deactivates a registered user; creates nothing. */
  function Stop(users: Users, id: int): (r: Users)
    ensures r.Keys == users.Keys
    ensures id in users ==> r[id] == users[id].(active := false)
    ensures id !in users ==> r == users
    ensures OthersUnchanged(users, r, id)
  {
    if id in users then users[id := users[id].(active := false)] else users
  }

  /* ---------------------------------------------------------------------
     /test
     --------------------------------------------------------------------- */

  /** `/test`: advances the chat's rotation once, as a scheduled send
      would. An empty catalog makes `rand.Intn(0)` panic. */
  function Test(users: Users, phrases: seq<string>, id: int, pick: nat): (r: Outcome)
    ensures r.Panic? <==> id in users && |phrases| == 0
    ensures r.Ok? ==> r.users.Keys == users.Keys && OthersUnchanged(users, r.users, id)
    ensures r.Ok? && id !in users ==> r.users == users
    ensures r.Ok? && id in users ==>
              exists s :: IsSelection(users[id], phrases, s) && r.users[id] == s.user
  {
    if id !in users then Ok(users)
    else if |phrases| == 0 then Panic
    else
      var s := NextUniquePhrase(users[id], phrases, pick);
      Ok(users[id := s.user])
  }

  /* ---------------------------------------------------------------------
     /time and /interval
     --------------------------------------------------------------------- */

  /** The window a `/time start end` message asks for, when it is valid:
      both arguments present, both integers, both hours in `[0, 23]` and
      the start strictly before the end. */
  function ParseWindow(parts: seq<string>): (r: Option<(int, int)>)
    ensures r.Some? ==> 0 <= r.value.0 < r.value.1 <= 23
    ensures r.Some? <==>
              && |parts| >= 3
              && Atoi(parts[1]).Some? && Atoi(parts[2]).Some?
              && 0 <= Atoi(parts[1]).value < Atoi(parts[2]).value <= 23
    ensures r.Some? ==> r.value == (Atoi(parts[1]).value, Atoi(parts[2]).value)
  {
    if |parts| < 3 then None
    else
      var start := Atoi(parts[1]);
      var end := Atoi(parts[2]);
      if start.None? || end.None? || start.value < 0 || start.value > 23
         || end.value < 0 || end.value > 23 || start.value >= end.value
      then None
      else Some((start.value, end.value))
  }

  /** `/time`: a valid window replaces the registered chat's start and end
      hours; anything else leaves the store as it was. */
  function SetTime(users: Users, id: int, parts: seq<string>): (r: Users)
    ensures r.Keys == users.Keys && OthersUnchanged(users, r, id)
    ensures ParseWindow(parts).None? || id !in users ==> r == users
    ensures ParseWindow(parts).Some? && id in users ==>
              r[id] == users[id].(startTime := ParseWindow(parts).value.0,
                                  endTime := ParseWindow(parts).value.1)
  {
    match ParseWindow(parts)
    case None => users
    case Some((start, end)) =>
      if id in users then users[id := users[id].(startTime := start, endTime := end)] else users
  }

  /** The interval an `/interval minutes` message asks for, when it is valid:
      the argument present, an integer, and between 1 and 1440. */
  function ParseInterval(parts: seq<string>): (r: Option<int>)
    ensures r.Some? ==> 1 <= r.value <= 1440
    ensures r.Some? <==> |parts| >= 2 && Atoi(parts[1]).Some? && 1 <= Atoi(parts[1]).value <= 1440
    ensures r.Some? ==> r.value == Atoi(parts[1]).value
  {
    if |parts| < 2 then None
    else
      var interval := Atoi(parts[1]);
      if interval.None? || interval.value < 1 || interval.value > 1440 then None
      else Some(interval.value)
  }

  /** `/interval`: a valid interval replaces the registered chat's
      interval; anything else leaves the store as it was. */
  function SetInterval(users: Users, id: int, parts: seq<string>): (r: Users)
    ensures r.Keys == users.Keys && OthersUnchanged(users, r, id)
    ensures ParseInterval(parts).None? || id !in users ==> r == users
    ensures ParseInterval(parts).Some? && id in users ==>
              r[id] == users[id].(interval := ParseInterval(parts).value)
  {
    match ParseInterval(parts)
    case None => users
    case Some(interval) =>
      if id in users then users[id := users[id].(interval := interval)] else users
  }

  /* ---------------------------------------------------------------------
     handleMessage
     --------------------------------------------------------------------- */

  /** The sender's name as recorded: Telegram users without a user name are
      called "Unknown". */
  function DisplayName(userName: string): (name: string)
    ensures name != ""
    ensures userName == "" ==> name == "Unknown"
    ensures userName != "" ==> name == userName
  {
    if userName == "" then "Unknown" else userName
  }

  /** The store effect of the command whose words are `parts`. */
  function Dispatch(users: Users, phrases: seq<string>, id: int, name: string,
                    parts: seq<string>, samaraLoads: bool, pick: nat): (r: Outcome)
    requires |parts| >= 1
    ensures r.Panic? ==> parts[0] == "/test" && id in users && |phrases| == 0
    ensures r.Ok? ==> OthersUnchanged(users, r.users, id)
    ensures r.Ok? ==> r.users.Keys == users.Keys + (if parts[0] == "/start" then {id} else {})
    ensures parts[0] !in {"/start", "/stop", "/test", "/time", "/interval"} ==> r == Ok(users)
  {
    match parts[0]
    case "/start" => Ok(Start(users, id, name, samaraLoads))
    case "/stop" => Ok(Stop(users, id))
    case "/test" => Test(users, phrases, id, pick)
    case "/time" => Ok(SetTime(users, id, parts))
    case "/interval" => Ok(SetInterval(users, id, parts))
    case _ => Ok(users)
  }

  /** `handleMessage`: the first space-separated word selects the command.
      `/settings`, `/help` and unknown words only reply, so they leave the
      store unchanged. */
  function HandleMessage(users: Users, phrases: seq<string>, id: int, userName: string,
                         text: string, samaraLoads: bool, pick: nat): (r: Outcome)
    ensures r.Panic? ==> Split(text)[0] == "/test" && id in users && |phrases| == 0
    ensures r.Ok? ==> OthersUnchanged(users, r.users, id)
    ensures r.Ok? ==> r.users.Keys == users.Keys + (if Split(text)[0] == "/start" then {id} else {})
    ensures Split(text)[0] !in {"/start", "/stop", "/test", "/time", "/interval"} ==> r == Ok(users)
  {
    Dispatch(users, phrases, id, DisplayName(userName), Split(text), samaraLoads, pick)
  }

  /** Every command keeps the store invariant: records are created only by
      `/start`, with default settings, and only valid settings are written. */
  lemma HandleMessagePreservesStoreInvariant(users: Users, phrases: seq<string>, id: int,
                                             userName: string, text: string,
                                             samaraLoads: bool, pick: nat)
    requires StoreInvariant(users)
    requires HandleMessage(users, phrases, id, userName, text, samaraLoads, pick).Ok?
    ensures StoreInvariant(HandleMessage(users, phrases, id, userName, text, samaraLoads, pick).users)
  {
  }

  /** Every command keeps the sent lists well formed for the catalog in use. */
  lemma HandleMessagePreservesSentWellFormed(users: Users, phrases: seq<string>, id: int,
                                             userName: string, text: string,
                                             samaraLoads: bool, pick: nat)
    requires StoreSentWellFormed(users, |phrases|)
    requires HandleMessage(users, phrases, id, userName, text, samaraLoads, pick).Ok?
    ensures StoreSentWellFormed(HandleMessage(users, phrases, id, userName, text, samaraLoads, pick).users,
                                |phrases|)
  {
    if Split(text)[0] == "/test" && id in users {
      NextUniquePhrasePreservesSentWellFormed(users[id], phrases, pick);
    }
  }

  /** With a non-empty catalog no command crashes the process. */
  lemma HandleMessageNeverPanics(users: Users, phrases: seq<string>, id: int,
                                 userName: string, text: string, samaraLoads: bool, pick: nat)
    requires |phrases| >= 1
    ensures HandleMessage(users, phrases, id, userName, text, samaraLoads, pick).Ok?
  {
  }
}
