/** Worked messages: concrete texts run through the command handler. */
module Messages {
  import opened GoText
  import opened UserConfigs
  import opened Commands


  /** A command word and its arguments, as `Split` recovers them. */
  lemma SplitWords(words: seq<string>, text: string)
    requires |words| >= 1
    requires forall i :: 0 <= i < |words| ==> Space !in words[i]
    requires text == Join(words)
    ensures Split(text) == words
  {
    SplitJoin(words);
  }

  /* The words of five concrete messages. */

  lemma SplitTimeEightTwentyTwo()
    ensures Split("/time 8 22") == ["/time", "8", "22"]
  {
    assert Join(["22"]) == "22";
    assert Join(["8", "22"]) == "8 22";
    SplitWords(["/time", "8", "22"], "/time 8 22");
  }

  lemma SplitTimeTwentyTwoEight()
    ensures Split("/time 22 8") == ["/time", "22", "8"]
  {
    assert Join(["8"]) == "8";
    assert Join(["22", "8"]) == "22 8";
    SplitWords(["/time", "22", "8"], "/time 22 8");
  }

  lemma SplitTimeEight()
    ensures Split("/time 8") == ["/time", "8"]
  {
    SplitWords(["/time", "8"], "/time 8");
  }

  lemma SplitIntervalFortyFive()
    ensures Split("/interval 45") == ["/interval", "45"]
  {
    assert Join(["45"]) == "45";
    SplitWords(["/interval", "45"], "/interval 45");
  }

  lemma SplitIntervalZero()
    ensures Split("/interval 0") == ["/interval", "0"]
  {
    assert Join(["0"]) == "0";
    SplitWords(["/interval", "0"], "/interval 0");
  }

  /* What the handler does with words of that shape, whatever the text. */

  /** A text whose words are "/time 8 22" sets a registered user's window to
      8:00-22:00 and changes nothing else. */
  lemma TimeWordsSetWindow(users: Users, phrases: seq<string>, id: int, userName: string,
                           text: string, samaraLoads: bool, pick: nat)
    requires id in users
    requires Split(text) == ["/time", "8", "22"]
    ensures HandleMessage(users, phrases, id, userName, text, samaraLoads, pick)
            == Ok(users[id := users[id].(startTime := 8, endTime := 22)])
  {
    assert "22"[..1] == "2";
    assert DecimalValue("22") == 22;
    assert ParseWindow(["/time", "8", "22"]) == Some((8, 22));
  }

  /** A text whose words are "/time 22 8" is rejected. */
  lemma ReversedWindowWordsRejected(users: Users, phrases: seq<string>, id: int, userName: string,
                                    text: string, samaraLoads: bool, pick: nat)
    requires Split(text) == ["/time", "22", "8"]
    ensures HandleMessage(users, phrases, id, userName, text, samaraLoads, pick) == Ok(users)
  {
  }

  /** A text whose words are "/time 8" is rejected. */
  lemma MissingEndHourWordsRejected(users: Users, phrases: seq<string>, id: int, userName: string,
                                    text: string, samaraLoads: bool, pick: nat)
    requires Split(text) == ["/time", "8"]
    ensures HandleMessage(users, phrases, id, userName, text, samaraLoads, pick) == Ok(users)
  {
  }

  /** A text whose words are "/interval 45" sets a registered user's
      interval and nothing else. */
  lemma IntervalWordsSetInterval(users: Users, phrases: seq<string>, id: int, userName: string,
                                 text: string, samaraLoads: bool, pick: nat)
    requires id in users
    requires Split(text) == ["/interval", "45"]
    ensures HandleMessage(users, phrases, id, userName, text, samaraLoads, pick)
            == Ok(users[id := users[id].(interval := 45)])
  {
    assert "45"[..1] == "4";
    assert DecimalValue("45") == 45;
    assert ParseInterval(["/interval", "45"]) == Some(45);
  }

  /** A text whose words are "/interval 0" is rejected. */
  lemma ZeroIntervalWordsRejected(users: Users, phrases: seq<string>, id: int, userName: string,
                                  text: string, samaraLoads: bool, pick: nat)
    requires Split(text) == ["/interval", "0"]
    ensures HandleMessage(users, phrases, id, userName, text, samaraLoads, pick) == Ok(users)
  {
  }

  /* The five messages themselves. */

  /** "/time 8 22" from a registered user sets the window to 8:00-22:00 and
      changes nothing else. */
  lemma TimeMessageSetsWindow(users: Users, phrases: seq<string>, id: int, userName: string,
                              samaraLoads: bool, pick: nat)
    requires id in users
    ensures HandleMessage(users, phrases, id, userName, "/time 8 22", samaraLoads, pick)
            == Ok(users[id := users[id].(startTime := 8, endTime := 22)])
  {
    SplitTimeEightTwentyTwo();
    TimeWordsSetWindow(users, phrases, id, userName, "/time 8 22", samaraLoads, pick);
  }

  /** A reversed window ("/time 22 8") is rejected without touching the
      store. */
  lemma ReversedWindowRejected(users: Users, phrases: seq<string>, id: int, userName: string,
                               samaraLoads: bool, pick: nat)
    ensures HandleMessage(users, phrases, id, userName, "/time 22 8", samaraLoads, pick) == Ok(users)
  {
    SplitTimeTwentyTwoEight();
    ReversedWindowWordsRejected(users, phrases, id, userName, "/time 22 8", samaraLoads, pick);
  }

  /** A missing end hour ("/time 8") is rejected without touching the store. */
  lemma MissingEndHourRejected(users: Users, phrases: seq<string>, id: int, userName: string,
                               samaraLoads: bool, pick: nat)
    ensures HandleMessage(users, phrases, id, userName, "/time 8", samaraLoads, pick) == Ok(users)
  {
    SplitTimeEight();
    MissingEndHourWordsRejected(users, phrases, id, userName, "/time 8", samaraLoads, pick);
  }

  /** "/interval 45" from a registered user sets only the interval. */
  lemma IntervalMessageSetsInterval(users: Users, phrases: seq<string>, id: int, userName: string,
                                    samaraLoads: bool, pick: nat)
    requires id in users
    ensures HandleMessage(users, phrases, id, userName, "/interval 45", samaraLoads, pick)
            == Ok(users[id := users[id].(interval := 45)])
  {
    SplitIntervalFortyFive();
    IntervalWordsSetInterval(users, phrases, id, userName, "/interval 45", samaraLoads, pick);
  }

  /** An interval of zero minutes ("/interval 0") is rejected without
      touching the store. */
  lemma ZeroIntervalRejected(users: Users, phrases: seq<string>, id: int, userName: string,
                             samaraLoads: bool, pick: nat)
    ensures HandleMessage(users, phrases, id, userName, "/interval 0", samaraLoads, pick) == Ok(users)
  {
    SplitIntervalZero();
    ZeroIntervalWordsRejected(users, phrases, id, userName, "/interval 0", samaraLoads, pick);
  }
}
