/**
 * The lines of the parser's own unit tests, each read with an arbitrary
 * remainder after it (the tests use "end" and the empty remainder). Every
 * line and every expected value is a named constant; small lemmas state the
 * facts about the constants, and the generic lemmas at the end read a line
 * back from those facts alone.
 */
module ParserExamples {
  import opened Wire
  import opened Utf8
  import opened Events
  import opened Parser
  import opened ParserProperties

  // ---------------------------------------------------------------------------
  // Prefixes
  // ---------------------------------------------------------------------------

  const ExampleServer: Prefix := Server("irc.example.com")
  const ExampleUser: Prefix := User("nick", Some("on"), "example.com")
  const ExampleUserWithoutName: Prefix := User("nick", None, "example.com")
  const ServerPrefixInput: seq<byte> := ":" + "irc.example.com" + " "
  const UserPrefixInput: seq<byte> := ":" + "nick" + "!" + "on" + "@" + "example.com" + " "
  const UserPrefixWithoutNameInput: seq<byte> := ":" + "nick" + "@" + "example.com" + " "

  lemma ServerPrefixExample(rest: seq<byte>)
    ensures PrefixParser(ServerPrefixInput + rest) == Success(ExampleServer, rest)
  {
    ServerPrefixLine();
    PrefixRoundTrip(ExampleServer, rest);
  }

  lemma UserPrefixExample(rest: seq<byte>)
    ensures PrefixParser(UserPrefixInput + rest) == Success(ExampleUser, rest)
  {
    UserPrefixLine();
    PrefixRoundTrip(ExampleUser, rest);
  }

  lemma UserPrefixWithoutNameExample(rest: seq<byte>)
    ensures PrefixParser(UserPrefixWithoutNameInput + rest) == Success(ExampleUserWithoutName, rest)
  {
    UserPrefixWithoutNameLine();
    PrefixRoundTrip(ExampleUserWithoutName, rest);
  }

  lemma ServerPrefixLine()
    ensures ValidPrefix(ExampleServer) && Colon + PrefixText(ExampleServer) + Space == ServerPrefixInput
  {
  }

  lemma UserPrefixLine()
    ensures ValidPrefix(ExampleUser) && Colon + PrefixText(ExampleUser) + Space == UserPrefixInput
  {
  }

  lemma UserPrefixWithoutNameLine()
    ensures ValidPrefix(ExampleUserWithoutName)
    ensures Colon + PrefixText(ExampleUserWithoutName) + Space == UserPrefixWithoutNameInput
  {
  }

  // ---------------------------------------------------------------------------
  // Parameters
  // ---------------------------------------------------------------------------

  const FirstSecondThird: seq<seq<byte>> := ["first", "second", "third"]
  const JustFirst: seq<seq<byte>> := ["first"]
  const LastWithSpaces: seq<byte> := "last with spaces"
  const LastWithColons: seq<byte> := "last:with: colons"
  const MiddleParamsInput: seq<byte> := " first second third" + "\r\n"
  const TrailingWithSpacesInput: seq<byte> := " first second third" + " :" + "last with spaces" + "\r\n"
  const TrailingWithColonsInput: seq<byte> := " first" + " :" + "last:with: colons" + "\r\n"

  lemma MiddleParamsExample(rest: seq<byte>)
    ensures MiddleParamsParser(MiddleParamsInput + rest) == Success(FirstSecondThird, CRLF + rest)
  {
    FirstSecondThirdTokens();
    MiddleParamsLine();
    AsciiMiddleLine(FirstSecondThird, MiddleParamsInput, rest);
  }

  lemma TrailingWithSpacesExample(rest: seq<byte>)
    ensures ParamsParser(TrailingWithSpacesInput + rest) == Success(FirstSecondThird + [LastWithSpaces], CRLF + rest)
  {
    FirstSecondThirdTokens();
    LastWithSpacesToken();
    TrailingWithSpacesLine();
    AsciiTrailingLine(FirstSecondThird, LastWithSpaces, 4, TrailingWithSpacesInput, rest);
  }

  lemma TrailingWithColonsExample(rest: seq<byte>)
    ensures ParamsParser(TrailingWithColonsInput + rest) == Success(JustFirst + [LastWithColons], CRLF + rest)
  {
    JustFirstTokens();
    LastWithColonsToken();
    TrailingWithColonsLine();
    AsciiTrailingLine(JustFirst, LastWithColons, 4, TrailingWithColonsInput, rest);
  }

  lemma FirstSecondThirdTokens()
    ensures |FirstSecondThird| < 15 && forall i | 0 <= i < |FirstSecondThird| :: AsciiToken(FirstSecondThird[i], Middle)
  {
  }

  lemma JustFirstTokens()
    ensures |JustFirst| < 15 && forall i | 0 <= i < |JustFirst| :: AsciiToken(JustFirst[i], Middle)
  {
  }

  /** The fifth byte is a space, which no middle parameter holds. */
  lemma LastWithSpacesToken()
    ensures AsciiToken(LastWithSpaces, Trailing) && 4 < |LastWithSpaces| && !InClass(LastWithSpaces[4], Middle)
  {
  }

  /** The fifth byte is a colon, which no middle parameter holds. */
  lemma LastWithColonsToken()
    ensures AsciiToken(LastWithColons, Trailing) && 4 < |LastWithColons| && !InClass(LastWithColons[4], Middle)
  {
  }

  lemma MiddleParamsLine()
    ensures MiddleText(FirstSecondThird) + CRLF == MiddleParamsInput
  {
    FirstSecondThirdText();
  }

  lemma TrailingWithSpacesLine()
    ensures MiddleText(FirstSecondThird) + SpaceColon + LastWithSpaces + CRLF == TrailingWithSpacesInput
  {
    FirstSecondThirdText();
  }

  lemma TrailingWithColonsLine()
    ensures MiddleText(JustFirst) + SpaceColon + LastWithColons + CRLF == TrailingWithColonsInput
  {
    JustFirstText();
  }

  lemma FirstSecondThirdText()
    ensures MiddleText(FirstSecondThird) == " first second third"
  {
  }

  lemma JustFirstText()
    ensures MiddleText(JustFirst) == " first"
  {
  }

  // ---------------------------------------------------------------------------
  // Raw events and events
  // ---------------------------------------------------------------------------

  /** The text of the PRIVMSG line, in two halves. */
  const Question: seq<byte> := "Are you receiving" + " this message ?"
  const PrivmsgEvent: RawEvent := RawEvent(Some(User("Angel", Some("wings"), "irc.org")), "PRIVMSG", ["Wiz", Question])
  const PingRaw: RawEvent := RawEvent(None, "PING", [])
  const WelcomeEvent: RawEvent := RawEvent(Some(ExampleServer), "001", ["test", "Welcome"])
  const ServerPing: RawEvent := RawEvent(Some(ExampleServer), "PING", ["irc.example.com"])
  const MadeUp: RawEvent := RawEvent(None, "MADEUP", ["command"])

  const PrivmsgInput: seq<byte> :=
    ":Angel!wings@irc.org " + "PRIVMSG" + " Wiz" + " :" + Question + "\r\n"
  const PingRawInput: seq<byte> := "PING\r\n"
  const WelcomeInput: seq<byte> := ":irc.example.com " + "001" + " test" + " " + "Welcome" + "\r\n"
  const ServerPingInput: seq<byte> := ":irc.example.com " + "PING" + " " + "irc.example.com" + "\r\n"
  const MadeUpInput: seq<byte> := "MADEUP" + " " + "command" + "\r\n"

  lemma PrivmsgExample(rest: seq<byte>)
    ensures RawEventParser(PrivmsgInput + rest) == Success(PrivmsgEvent, rest)
  {
    PrivmsgTokens();
    PrivmsgLine();
    InitLast(PrivmsgEvent.params);
    AsciiEventLine(PrivmsgEvent, PrivmsgEvent.params[..1], PrivmsgEvent.params[1], PrivmsgInput, rest);
  }

  lemma PingRawExample(rest: seq<byte>)
    ensures RawEventParser(PingRawInput + rest) == Success(PingRaw, rest)
  {
    PingRawLine();
    RawEventRoundTrip(PingRaw, rest);
  }

  lemma WelcomeExample(rest: seq<byte>)
    ensures RawEventParser(WelcomeInput + rest) == Success(WelcomeEvent, rest)
  {
    WelcomeTokens();
    WelcomeLine();
    InitLast(WelcomeEvent.params);
    AsciiEventLine(WelcomeEvent, WelcomeEvent.params[..1], WelcomeEvent.params[1], WelcomeInput, rest);
  }

  lemma ServerPingExample(rest: seq<byte>)
    ensures ParseInput(ServerPingInput + rest) == Ping(ExampleServer.host, None)
  {
    ServerPingTokens();
    ServerPingLine();
    InitLast(ServerPing.params);
    AsciiEventInput(ServerPing, ServerPing.params[..0], ServerPing.params[0], ServerPingInput, rest);
  }

  lemma MadeUpExample(rest: seq<byte>)
    ensures ParseInput(MadeUpInput + rest) == Unknown
  {
    MadeUpTokens();
    MadeUpLine();
    InitLast(MadeUp.params);
    AsciiEventInput(MadeUp, MadeUp.params[..0], MadeUp.params[0], MadeUpInput, rest);
  }

  /** Words after plain spaces are separate middle parameters, each read as the longest run. */
  const TwoWords: RawEvent := RawEvent(None, "CMD", ["ab", "cd"])
  const TwoWordsInput: seq<byte> := "CMD" + " ab" + " " + "cd" + "\r\n"

  lemma TwoWordsExample(rest: seq<byte>)
    ensures RawEventParser(TwoWordsInput + rest) == Success(TwoWords, rest)
  {
    TwoWordsParts();
    EventWrittenRoundTrip(TwoWords, false, rest);
  }

  lemma TwoWordsParts()
    ensures WellFormed(TwoWords) && ReadsBack(TwoWords.params, false)
    ensures EventWritten(TwoWords, false) == TwoWordsInput
  {
    AsciiIsUtf8("ab");
    AsciiIsUtf8("cd");
    assert TwoWords.params[..1] == ["ab"];
    assert MiddleText(["ab"]) == Space + "ab" + MiddleText([]);
  }

  /**
   * A last parameter that starts with a space cannot be a middle one, so after a plain
   * space it is read whole as the trailing parameter, its own leading space included.
   */
  const SpaceLed: RawEvent := RawEvent(None, "CMD", [" x"])
  const SpaceLedInput: seq<byte> := "CMD" + " " + " x" + "\r\n"

  lemma SpaceLedExample(rest: seq<byte>)
    ensures RawEventParser(SpaceLedInput + rest) == Success(SpaceLed, rest)
  {
    SpaceLedParts();
    EventWrittenRoundTrip(SpaceLed, false, rest);
  }

  lemma SpaceLedParts()
    ensures WellFormed(SpaceLed) && ReadsBack(SpaceLed.params, false)
    ensures EventWritten(SpaceLed, false) == SpaceLedInput
  {
    AsciiIsUtf8(" x");
    assert SpaceLed.params[..0] == [];
  }

  /** The keep-alive as servers usually send it, its one parameter after " :". */
  const ColonPingInput: seq<byte> := "PING" + " :" + "irc.example.com" + "\r\n"

  lemma ColonPingExample(rest: seq<byte>)
    ensures ParseInput(ColonPingInput + rest) == Ping(ExampleServer.host, None)
  {
    ColonPingLine();
    ServerPingOf(ExampleServer.host, rest);
  }

  lemma ColonPingLine()
    ensures IsTrailing(ExampleServer.host)
    ensures PingCommand + SpaceColon + ExampleServer.host + CRLF == ColonPingInput
  {
    AsciiTrailing(ExampleServer.host);
  }

  lemma PrivmsgTokens()
    ensures AsciiEvent(PrivmsgEvent) && |PrivmsgEvent.params| == 2
  {
    AngelValid();
    PrivmsgParts();
    AsciiEventOf(PrivmsgEvent);
  }

  lemma AngelValid()
    ensures PrivmsgEvent.prefix.Some? && ValidPrefix(PrivmsgEvent.prefix.value)
  {
  }

  lemma PrivmsgParts()
    ensures IsCommand(PrivmsgEvent.command) && |PrivmsgEvent.params| == 2
    ensures AsciiToken(PrivmsgEvent.params[0], Middle) && AsciiToken(PrivmsgEvent.params[1], Trailing)
  {
    QuestionToken();
  }

  lemma QuestionToken()
    ensures |PrivmsgEvent.params| == 2 && AsciiToken(PrivmsgEvent.params[1], Trailing)
  {
    QuestionHalves();
    AsciiTokenAppend("Are you receiving", " this message ?", Trailing);
  }

  lemma QuestionHalves()
    ensures AsciiToken("Are you receiving", Trailing) && AsciiToken(" this message ?", Trailing)
  {
  }

  lemma PrivmsgLine()
    ensures PrefixPart(PrivmsgEvent.prefix) + PrivmsgEvent.command + MiddleText(PrivmsgEvent.params[..1])
            + Intro(PrivmsgEvent.params[1]) + PrivmsgEvent.params[1] + CRLF == PrivmsgInput
  {
    PrivmsgPieces();
  }

  lemma PrivmsgPieces()
    ensures PrefixPart(PrivmsgEvent.prefix) == ":Angel!wings@irc.org "
    ensures PrivmsgEvent.command == "PRIVMSG"
    ensures MiddleText(PrivmsgEvent.params[..1]) == " Wiz"
    ensures Intro(PrivmsgEvent.params[1]) == " :"
    ensures PrivmsgEvent.params[1] == Question
  {
    assert PrivmsgEvent.params[..1] == ["Wiz"];
    assert !InClass(PrivmsgEvent.params[1][3], Middle);
  }

  lemma PingRawLine()
    ensures WellFormed(PingRaw) && Render(PingRaw) == PingRawInput
  {
  }

  lemma WelcomeTokens()
    ensures AsciiEvent(WelcomeEvent) && |WelcomeEvent.params| == 2
  {
    ServerPrefixLine();
    WelcomeParts();
    AsciiEventOf(WelcomeEvent);
  }

  lemma WelcomeParts()
    ensures WelcomeEvent.prefix == Some(ExampleServer)
    ensures IsCommand(WelcomeEvent.command) && |WelcomeEvent.params| == 2
    ensures AsciiToken(WelcomeEvent.params[0], Middle) && AsciiToken(WelcomeEvent.params[1], Trailing)
  {
  }

  lemma WelcomeLine()
    ensures PrefixPart(WelcomeEvent.prefix) + WelcomeEvent.command + MiddleText(WelcomeEvent.params[..1])
            + Intro(WelcomeEvent.params[1]) + WelcomeEvent.params[1] + CRLF == WelcomeInput
  {
    ServerPrefixPart();
    WelcomePieces();
    assert WelcomeEvent.prefix == Some(ExampleServer);
  }

  lemma WelcomePieces()
    ensures MiddleText(WelcomeEvent.params[..1]) == " test" && Intro(WelcomeEvent.params[1]) == " "
  {
    assert WelcomeEvent.params[..1] == ["test"];
  }

  lemma ServerPingTokens()
    ensures AsciiEvent(ServerPing) && |ServerPing.params| == 1
    ensures ServerPing.command == PingCommand && ServerPing.params[0] == ExampleServer.host
  {
    ServerPrefixLine();
    ServerPingParts();
    AsciiEventOf(ServerPing);
  }

  lemma ServerPingParts()
    ensures ServerPing.prefix == Some(ExampleServer)
    ensures IsCommand(ServerPing.command) && |ServerPing.params| == 1 && AsciiToken(ServerPing.params[0], Trailing)
    ensures ServerPing.command == PingCommand && ServerPing.params[0] == ExampleServer.host
  {
  }

  lemma ServerPingLine()
    ensures PrefixPart(ServerPing.prefix) + ServerPing.command + MiddleText([])
            + Intro(ServerPing.params[0]) + ServerPing.params[0] + CRLF == ServerPingInput
  {
    ServerPrefixPart();
    HostIntro();
    assert ServerPing.prefix == Some(ExampleServer) && ServerPing.params[0] == ExampleServer.host;
  }

  lemma ServerPrefixPart()
    ensures PrefixPart(Some(ExampleServer)) == ":irc.example.com "
  {
  }

  lemma HostIntro()
    ensures Intro(ExampleServer.host) == " "
  {
  }

  lemma MadeUpTokens()
    ensures AsciiEvent(MadeUp) && |MadeUp.params| == 1 && MadeUp.command != PingCommand
  {
    MadeUpParts();
    AsciiEventOf(MadeUp);
  }

  lemma MadeUpParts()
    ensures MadeUp.prefix == None && MadeUp.command != PingCommand
    ensures IsCommand(MadeUp.command) && |MadeUp.params| == 1 && AsciiToken(MadeUp.params[0], Trailing)
  {
  }

  lemma MadeUpLine()
    ensures PrefixPart(MadeUp.prefix) + MadeUp.command + MiddleText([])
            + Intro(MadeUp.params[0]) + MadeUp.params[0] + CRLF == MadeUpInput
  {
  }

  // ---------------------------------------------------------------------------
  // Reading back lines of ASCII tokens
  // ---------------------------------------------------------------------------

  /**
   * How a line of ASCII tokens writes its last parameter: after a bare space when it holds
   * only middle bytes. A test on bytes alone, cheap on literal lines; `IntroAgrees` shows
   * that for ASCII tokens it is the choice `NeedsColon` makes.
   */
  function Intro(last: seq<byte>): (r: seq<byte>)
    ensures r == Space || r == SpaceColon
  {
    if AllIn(last, Middle) then Space else SpaceColon
  }

  lemma IntroAgrees(ms: seq<seq<byte>>, last: seq<byte>)
    requires AsciiToken(last, Trailing)
    ensures Intro(last) == if NeedsColon(ms + [last]) then SpaceColon else Space
  {
    assert (ms + [last])[|ms + [last]| - 1] == last;
    if AllIn(last, Middle) { AsciiMiddle(last); }
  }

  /** The line of an event whose parameters are ASCII tokens, the last one written after `Intro`. */
  lemma AsciiEventRender(ev: RawEvent, ms: seq<seq<byte>>, last: seq<byte>)
    requires AsciiEvent(ev) && ev.params == ms + [last]
    ensures WellFormed(ev)
    ensures Render(ev) == PrefixPart(ev.prefix) + ev.command + MiddleText(ms) + Intro(last) + last + CRLF
  {
    AsciiWellFormed(ev);
    assert ev.params[|ev.params| - 1] == last;
    if AllIn(last, Middle) {
      AsciiMiddle(last);
      MiddleLastText(ms, last);
    } else {
      TrailingText(ms, last);
    }
    Assoc(PrefixPart(ev.prefix) + ev.command, MiddleText(ms), Intro(last));
    Assoc(PrefixPart(ev.prefix) + ev.command, MiddleText(ms) + Intro(last), last);
  }

  /** Such an event reads back from its line. */
  lemma AsciiEventLine(ev: RawEvent, ms: seq<seq<byte>>, last: seq<byte>, line: seq<byte>, rest: seq<byte>)
    requires AsciiEvent(ev) && ev.params == ms + [last]
    requires PrefixPart(ev.prefix) + ev.command + MiddleText(ms) + Intro(last) + last + CRLF == line
    ensures RawEventParser(line + rest) == Success(ev, rest)
  {
    AsciiEventRender(ev, ms, last);
    RawEventRoundTrip(ev, rest);
  }

  /** The same line, turned into an application event. */
  lemma AsciiEventInput(ev: RawEvent, ms: seq<seq<byte>>, last: seq<byte>, line: seq<byte>, rest: seq<byte>)
    requires AsciiEvent(ev) && ev.params == ms + [last]
    requires PrefixPart(ev.prefix) + ev.command + MiddleText(ms) + Intro(last) + last + CRLF == line
    ensures ParseInput(line + rest)
         == if ev.command == PingCommand then Ping(ev.params[0], if |ev.params| >= 2 then Some(ev.params[1]) else None)
            else Unknown
  {
    AsciiEventRender(ev, ms, last);
    ParseInputOfRendered(ev, rest);
  }

  /** A raw event whose prefix and command are valid and whose parameters are ASCII tokens. */
  predicate AsciiEvent(ev: RawEvent)
  {
    (ev.prefix.Some? ==> ValidPrefix(ev.prefix.value))
    && IsCommand(ev.command)
    && |ev.params| <= 15
    && (forall i | 0 <= i < |ev.params| - 1 :: AsciiToken(ev.params[i], Middle))
    && (ev.params != [] ==> AsciiToken(ev.params[|ev.params| - 1], Trailing))
  }

  /** An event of at most two parameters whose parts are checked one by one. */
  lemma AsciiEventOf(ev: RawEvent)
    requires (ev.prefix.Some? ==> ValidPrefix(ev.prefix.value)) && IsCommand(ev.command) && |ev.params| <= 2
    requires |ev.params| == 2 ==> AsciiToken(ev.params[0], Middle)
    requires ev.params != [] ==> AsciiToken(ev.params[|ev.params| - 1], Trailing)
    ensures AsciiEvent(ev)
  {
  }

  lemma AsciiWellFormed(ev: RawEvent)
    requires AsciiEvent(ev)
    ensures WellFormed(ev)
  {
    forall i | 0 <= i < |ev.params| - 1 ensures IsMiddle(ev.params[i]) {
      AsciiMiddle(ev.params[i]);
    }
    if ev.params != [] {
      AsciiTrailing(ev.params[|ev.params| - 1]);
    }
  }

  /** The text of parameters whose last one needs the trailing introducer. */
  lemma TrailingText(ms: seq<seq<byte>>, last: seq<byte>)
    requires !IsMiddle(last)
    ensures ParamsText(ms + [last]) == MiddleText(ms) + SpaceColon + last
  {
    assert (ms + [last])[..|ms|] == ms;
  }

  /** The text of parameters whose last one is written without the trailing introducer. */
  lemma MiddleLastText(ms: seq<seq<byte>>, last: seq<byte>)
    requires IsMiddle(last)
    ensures ParamsText(ms + [last]) == MiddleText(ms) + Space + last
  {
    assert (ms + [last])[..|ms|] == ms;
  }

  /** A non-empty ASCII token whose every byte is in class `k`. */
  predicate AsciiToken(p: seq<byte>, k: ByteClass)
  {
    p != [] && AllIn(p, k) && AllAscii(p)
  }

  /**
   * ASCII middle parameters followed by an ASCII parameter that holds a byte no middle one
   * may (a space or a colon) read back as one list, the last through the trailing introducer.
   */
  lemma AsciiTrailingParams(ms: seq<seq<byte>>, last: seq<byte>, j: int, rest: seq<byte>)
    requires |ms| < 15 && forall i | 0 <= i < |ms| :: AsciiToken(ms[i], Middle)
    requires AsciiToken(last, Trailing) && 0 <= j < |last| && !InClass(last[j], Middle)
    requires rest == [] || !InClass(rest[0], Trailing)
    ensures ParamsParser(MiddleText(ms) + SpaceColon + last + rest) == Success(ms + [last], rest)
  {
    forall i | 0 <= i < |ms| ensures IsMiddle(ms[i]) {
      AsciiMiddle(ms[i]);
    }
    AsciiTrailing(last);
    TrailingParamsOf(ms, last, rest);
  }

  /** A line of ASCII middle parameters ending in CR LF: all are read, the terminator is left. */
  lemma AsciiMiddleLine(ms: seq<seq<byte>>, line: seq<byte>, rest: seq<byte>)
    requires |ms| <= MaxMiddle && forall i | 0 <= i < |ms| :: AsciiToken(ms[i], Middle)
    requires MiddleText(ms) + CRLF == line
    ensures MiddleParamsParser(line + rest) == Success(ms, CRLF + rest)
  {
    forall i | 0 <= i < |ms| ensures IsMiddle(ms[i]) {
      AsciiMiddle(ms[i]);
    }
    assert (CRLF + rest)[0] == '\r';
    ManyMiddleRoundTrip(ms, CRLF + rest, MaxMiddle);
    Assoc(MiddleText(ms), CRLF, rest);
  }

  /** A line of ASCII middle parameters and a trailing one ending in CR LF. */
  lemma AsciiTrailingLine(ms: seq<seq<byte>>, last: seq<byte>, j: int, line: seq<byte>, rest: seq<byte>)
    requires |ms| < 15 && forall i | 0 <= i < |ms| :: AsciiToken(ms[i], Middle)
    requires AsciiToken(last, Trailing) && 0 <= j < |last| && !InClass(last[j], Middle)
    requires MiddleText(ms) + SpaceColon + last + CRLF == line
    ensures ParamsParser(line + rest) == Success(ms + [last], CRLF + rest)
  {
    assert (CRLF + rest)[0] == '\r';
    AsciiTrailingParams(ms, last, j, CRLF + rest);
    Assoc(MiddleText(ms) + SpaceColon + last, CRLF, rest);
  }

  lemma TrailingParamsOf(ms: seq<seq<byte>>, last: seq<byte>, rest: seq<byte>)
    requires |ms| < 15 && forall i | 0 <= i < |ms| :: IsMiddle(ms[i])
    requires IsTrailing(last) && !IsMiddle(last)
    requires rest == [] || !InClass(rest[0], Trailing)
    ensures ParamsParser(MiddleText(ms) + SpaceColon + last + rest) == Success(ms + [last], rest)
  {
    var ps := ms + [last];
    assert ps[..|ms|] == ms;
    assert WellFormedParams(ps) by {
      assert forall i | 0 <= i < |ps| - 1 :: ps[i] == ms[i];
    }
    ParamsRoundTrip(ps, rest);
    Assoc(MiddleText(ms) + SpaceColon, last, rest);
  }

  /** Two tokens of one class, written one after the other, are a token of that class. */
  lemma AsciiTokenAppend(a: seq<byte>, b: seq<byte>, k: ByteClass)
    requires AsciiToken(a, k) && AsciiToken(b, k)
    ensures AsciiToken(a + b, k)
  {
    forall i | 0 <= i < |a + b| ensures InClass((a + b)[i], k) && (a + b)[i] as int < 0x80 {
      if i < |a| {
        assert (a + b)[i] == a[i];
      } else {
        assert (a + b)[i] == b[i - |a|];
      }
    }
  }

}
