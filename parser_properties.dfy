/**
 * Properties of the IRC grammar parser: how a well-formed message is written
 * (`Render`), that parsing a written message gives it back unchanged, and the
 * concrete lines of the parser's own tests as instances of those facts.
 */
module ParserProperties {
  import opened Wire
  import opened Utf8
  import opened Events
  import opened Parser

  // ---------------------------------------------------------------------------
  // Writing a message back out
  // ---------------------------------------------------------------------------

  /** The canonical writing puts " :" before the last parameter unless it could pass for a middle one. */
  predicate NeedsColon(ps: seq<seq<byte>>)
  {
    ps != [] && !IsMiddle(ps[|ps| - 1])
  }

  /** The parameters as written on a line: every middle one after a space, the
      last one after " :" unless it could pass for a middle parameter. */
  function ParamsText(ps: seq<seq<byte>>): seq<byte>
  {
    ParamsWritten(ps, NeedsColon(ps))
  }

  /** One complete line carrying `ev`, terminator included, written the canonical way. */
  function Render(ev: RawEvent): seq<byte>
  {
    EventWritten(ev, NeedsColon(ev.params))
  }

  // ---------------------------------------------------------------------------
  // Runs
  // ---------------------------------------------------------------------------

  lemma InitLast(ps: seq<seq<byte>>)
    requires ps != []
    ensures ps[..|ps| - 1] + [ps[|ps| - 1]] == ps
  {
  }

  lemma DropFirst(a: seq<byte>, b: seq<byte>)
    requires |a| == 1
    ensures (a + b)[1..] == b
  {
  }

  /** The run of `p`-bytes in front of a byte that stops it is exactly `w`. */
  lemma SpanOfRun(w: seq<byte>, rest: seq<byte>, k: ByteClass)
    requires AllIn(w, k) && (rest == [] || !InClass(rest[0], k))
    ensures Span(w + rest, k) == |w|
  {
    var s := w + rest;
    var n := Span(s, k);
    assert forall i | 0 <= i < |w| :: s[i] == w[i];
    assert |w| < |s| ==> s[|w|] == rest[0];
  }

  lemma TakeWhileOfRun(w: seq<byte>, rest: seq<byte>, k: ByteClass)
    requires AllIn(w, k) && (rest == [] || !InClass(rest[0], k))
    ensures TakeWhile(w + rest, k) == Success(w, rest)
  {
    SpanOfRun(w, rest, k);
    assert (w + rest)[..|w|] == w && (w + rest)[|w|..] == rest;
  }

  lemma TakeWhile1OfRun(w: seq<byte>, rest: seq<byte>, k: ByteClass)
    requires w != [] && AllIn(w, k) && (rest == [] || !InClass(rest[0], k))
    ensures TakeWhile1(w + rest, k) == Success(w, rest)
  {
    TakeWhileOfRun(w, rest, k);
  }

  // ---------------------------------------------------------------------------
  // Prefix
  // ---------------------------------------------------------------------------

  /** A host never contains '!' or '@', so the user form fails on it and the server form is used. */
  lemma ServerPrefixOf(host: seq<byte>, rest: seq<byte>)
    requires AllIn(host, Host)
    ensures UserPrefixParser(host + Space + rest).Failure?
    ensures ServerPrefixParser(host + Space + rest) == Success(Server(host), Space + rest)
  {
    assert host + Space + rest == host + (Space + rest);
    NoUserPrefixInHost(host, Space + rest);
    HostOf(host, Space + rest);
  }

  /** The user form fails on a host followed by a space. */
  lemma NoUserPrefixInHost(host: seq<byte>, tail: seq<byte>)
    requires AllIn(host, Host) && tail != [] && tail[0] == ' '
    ensures UserPrefixParser(host + tail).Failure?
  {
    var afterNick := NickParser(host + tail).rest;
    NickStopsInHost(host, tail);
    NoBangAtStop(afterNick);
  }

  /** The nick run over a host followed by a space stops at a space or a host byte. */
  lemma NickStopsInHost(host: seq<byte>, tail: seq<byte>)
    requires AllIn(host, Host) && tail != [] && tail[0] == ' '
    ensures var next := NickParser(host + tail).rest;
      next != [] && (next[0] == ' ' || InClass(next[0], Host))
  {
    var s := host + tail;
    var n := NickParser(s).value;
    assert s[|host|] == ' ';
    assert |n| <= |host|;
    assert NickParser(s).rest == s[|n|..];
  }

  /** At a space or a host byte there is neither "!" nor "@". */
  lemma NoBangAtStop(s: seq<byte>)
    requires s != [] && (s[0] == ' ' || InClass(s[0], Host))
    ensures UsernameParser(s) == Success(None, s)
    ensures s[0] != '@'
  {
  }

  lemma NickOf(nick: seq<byte>, rest: seq<byte>)
    requires AllIn(nick, Nick) && (rest == [] || !InClass(rest[0], Nick))
    ensures NickParser(nick + rest) == Success(nick, rest)
  {
    TakeWhileOfRun(nick, rest, Nick);
    AsciiNick(nick);
  }

  lemma HostOf(host: seq<byte>, rest: seq<byte>)
    requires AllIn(host, Host) && (rest == [] || !InClass(rest[0], Host))
    ensures HostParser(host + rest) == Success(host, rest)
  {
    TakeWhileOfRun(host, rest, Host);
    AsciiHost(host);
  }

  lemma UsernameOf(username: Option<seq<byte>>, rest: seq<byte>)
    requires username.Some? ==> username.value != [] && AllIn(username.value, Alphanumeric)
    requires rest != [] && rest[0] == '@'
    ensures UsernameParser(UsernameText(username) + rest) == Success(username, rest)
  {
    if username.Some? {
      var u := username.value;
      assert (Bang + u + rest)[1..] == u + rest;
      TakeWhile1OfRun(u, rest, Alphanumeric);
      AsciiAlphanumeric(u);
    } else {
      assert UsernameText(username) + rest == rest;
    }
  }

  /** user_prefix_parser chains its three parts. */
  lemma UserPrefixCons(s: seq<byte>, nick: seq<byte>, afterNick: seq<byte>, username: Option<seq<byte>>,
                       afterName: seq<byte>, hostRest: seq<byte>, host: seq<byte>, rest: seq<byte>)
    requires NickParser(s) == Success(nick, afterNick)
    requires UsernameParser(afterNick) == Success(username, afterName)
    requires afterName == At + hostRest && HostParser(hostRest) == Success(host, rest)
    ensures UserPrefixParser(s) == Success(User(nick, username, host), rest)
  {
    DropFirst(At, hostRest);
  }

  /** A user prefix as written, split at the points where its parsers hand over. */
  lemma UserTextRegroup(nick: seq<byte>, username: Option<seq<byte>>, host: seq<byte>, rest: seq<byte>)
    ensures PrefixText(User(nick, username, host)) + Space + rest
         == nick + (UsernameText(username) + (At + (host + (Space + rest))))
  {
    var u := UsernameText(username);
    assert PrefixText(User(nick, username, host)) == nick + u + At + host;
    assert nick + u + At + host + Space + rest == nick + (u + (At + (host + (Space + rest))));
  }

  /** The nick of a written user prefix is followed by '!' or '@', which end it. */
  lemma NickPartOf(nick: seq<byte>, username: Option<seq<byte>>, afterName: seq<byte>)
    requires AllIn(nick, Nick) && afterName != [] && afterName[0] == '@'
    ensures NickParser(nick + (UsernameText(username) + afterName)) == Success(nick, UsernameText(username) + afterName)
  {
    var afterNick := UsernameText(username) + afterName;
    assert afterNick[0] == if username.Some? then '!' else '@';
    NickOf(nick, afterNick);
  }

  /** Each of user_prefix_parser's three parts reads its own piece of a written user prefix. */
  lemma UserPartsOf(nick: seq<byte>, username: Option<seq<byte>>, host: seq<byte>, rest: seq<byte>)
    requires AllIn(nick, Nick) && AllIn(host, Host)
    requires username.Some? ==> username.value != [] && AllIn(username.value, Alphanumeric)
    requires rest != [] && rest[0] == ' '
    ensures var afterNick := UsernameText(username) + (At + (host + rest));
      NickParser(nick + afterNick) == Success(nick, afterNick)
    ensures UsernameParser(UsernameText(username) + (At + (host + rest))) == Success(username, At + (host + rest))
    ensures HostParser(host + rest) == Success(host, rest)
  {
    var afterName := At + (host + rest);
    AtHead(host, rest);
    assert NickParser(nick + (UsernameText(username) + afterName)) == Success(nick, UsernameText(username) + afterName) by {
      NickPartOf(nick, username, afterName);
    }
    assert UsernameParser(UsernameText(username) + afterName) == Success(username, afterName) by {
      UsernameOf(username, afterName);
    }
    SpaceEndsHost(rest);
    HostOf(host, rest);
  }

  /** A space is not a host byte, so it ends the host of a user prefix. */
  lemma SpaceEndsHost(rest: seq<byte>)
    requires rest != [] && rest[0] == ' '
    ensures !InClass(rest[0], Host)
  {
    assert ' ' !in HostSpecial;
  }

  lemma AtHead(host: seq<byte>, rest: seq<byte>)
    ensures (At + (host + rest)) != [] && (At + (host + rest))[0] == '@'
  {
  }

  lemma UserPrefixOf(nick: seq<byte>, username: Option<seq<byte>>, host: seq<byte>, rest: seq<byte>)
    requires ValidPrefix(User(nick, username, host))
    ensures UserPrefixParser(PrefixText(User(nick, username, host)) + Space + rest)
         == Success(User(nick, username, host), Space + rest)
  {
    var hostRest := host + (Space + rest);
    var afterNick := UsernameText(username) + (At + hostRest);
    UserTextRegroup(nick, username, host, rest);
    UserPartsOf(nick, username, host, Space + rest);
    UserPrefixCons(nick + afterNick, nick, afterNick, username, At + hostRest, hostRest, host, Space + rest);
  }

  /** Which of the two forms of prefix_parser's alternative reads a written prefix. */
  predicate FormReads(p: Prefix, t: seq<byte>, rest: seq<byte>)
  {
    if p.User? then UserPrefixParser(t) == Success(p, rest)
    else UserPrefixParser(t).Failure? && ServerPrefixParser(t) == Success(p, rest)
  }

  lemma FormOf(p: Prefix, rest: seq<byte>)
    requires ValidPrefix(p)
    ensures FormReads(p, PrefixText(p) + Space + rest, Space + rest)
  {
    match p
    case Server(host) => ServerPrefixOf(host, rest);
    case User(nick, username, host) => UserPrefixOf(nick, username, host, rest);
  }

  /** prefix_parser: ':' and then whichever form parses, and a space. */
  lemma PrefixCons(s: seq<byte>, p: Prefix, t: seq<byte>, rest: seq<byte>)
    requires s == Colon + t && FormReads(p, t, Space + rest)
    ensures PrefixParser(s) == Success(p, rest)
  {
    DropFirst(Colon, t);
    DropFirst(Space, rest);
  }

  /** prefix_parser reads back any valid prefix, of either form. */
  lemma PrefixRoundTrip(p: Prefix, rest: seq<byte>)
    requires ValidPrefix(p)
    ensures PrefixParser(Colon + PrefixText(p) + Space + rest) == Success(p, rest)
  {
    FormOf(p, rest);
    Assoc(Colon, PrefixText(p), Space);
    Assoc(Colon, PrefixText(p) + Space, rest);
    PrefixCons(Colon + PrefixText(p) + Space + rest, p, PrefixText(p) + Space + rest, rest);
  }

  /** The user form matches only where an '@' follows the nick (and username): without one the
      prefix falls back to the server form. */
  lemma UserPrefixNeedsAt(s: seq<byte>)
    ensures UserPrefixParser(s).Success? ==> exists i | 0 <= i < |s| :: s[i] == '@'
  {
    var r := UserPrefixParser(s);
    if r.Success? {
      var t := PrefixText(r.value);
      var k := |t| - |r.value.host| - 1;
      assert s[k] == t[k] == '@';
    }
  }

  /** The username is present exactly when the nick is followed by '!'. */
  lemma UsernameFollowsBang(s: seq<byte>)
    requires UserPrefixParser(s).Success?
    ensures var p := UserPrefixParser(s).value;
      p.username.Some? <==> |p.nick| < |s| && s[|p.nick|] == '!'
  {
    var p := UserPrefixParser(s).value;
    var t := PrefixText(p);
    assert s[|p.nick|] == t[|p.nick|];
  }

  // ---------------------------------------------------------------------------
  // Parameters
  // ---------------------------------------------------------------------------

  lemma MiddleParamOf(p: seq<byte>, rest: seq<byte>)
    requires IsMiddle(p) && (rest == [] || !InClass(rest[0], Middle))
    ensures MiddleParam(Space + p + rest) == Success(p, rest)
  {
    assert (Space + p + rest)[1..] == p + rest;
    TakeWhile1OfRun(p, rest, Middle);
  }

  /** What follows the first written middle parameter starts with a space or is `rest`. */
  lemma MiddleTextStops(ps: seq<seq<byte>>, rest: seq<byte>)
    requires ps != []
    requires rest == [] || !InClass(rest[0], Middle)
    ensures var tail := MiddleText(ps[1..]) + rest; tail == [] || !InClass(tail[0], Middle)
  {
    if ps[1..] != [] {
      assert (MiddleText(ps[1..]) + rest)[0] == ' ';
    }
  }

  /**
   * many_m_n! reads back the values `vs[k..]` of a text written by `text`,
   * when `p` reads each value back off its own piece and fails where the text
   * ends (unless `max` values have been read by then).
   */
  lemma {:induction false} ManyFrom<T>(p: seq<byte> -> ParseResult<T>, text: seq<T> -> seq<byte>, vs: seq<T>, k: nat,
                                       rest: seq<byte>, max: nat)
    requires k <= |vs| <= max && text([]) == []
    requires forall i | 0 <= i < |vs| :: p(text(vs[i..]) + rest) == Success(vs[i], text(vs[i + 1..]) + rest)
    requires |vs| == max || p(rest).Failure?
    ensures Many(p, text(vs[k..]) + rest, max - k) == Success(vs[k..], rest)
    decreases |vs| - k
  {
    if k == |vs| {
      assert vs[k..] == [];
      assert [] + rest == rest;
    } else {
      ManyFrom(p, text, vs, k + 1, rest, max);
      assert [vs[k]] + vs[k + 1..] == vs[k..];
    }
  }

  lemma ManyRoundTrip<T>(p: seq<byte> -> ParseResult<T>, text: seq<T> -> seq<byte>, vs: seq<T>, rest: seq<byte>, max: nat)
    requires |vs| <= max && text([]) == []
    requires forall i | 0 <= i < |vs| :: p(text(vs[i..]) + rest) == Success(vs[i], text(vs[i + 1..]) + rest)
    requires |vs| == max || p(rest).Failure?
    ensures Many(p, text(vs) + rest, max) == Success(vs, rest)
  {
    ManyFrom(p, text, vs, 0, rest, max);
    assert vs[0..] == vs;
  }

  /** The middle parameter parser reads the `i`-th written parameter off its piece of the text. */
  lemma MiddleParamAt(ps: seq<seq<byte>>, i: nat, rest: seq<byte>)
    requires i < |ps| && IsMiddle(ps[i])
    requires rest == [] || !InClass(rest[0], Middle)
    ensures MiddleParam(MiddleText(ps[i..]) + rest) == Success(ps[i], MiddleText(ps[i + 1..]) + rest)
  {
    var t := ps[i..];
    assert t[0] == ps[i] && t[1..] == ps[i + 1..];
    MiddleTextStops(t, rest);
    MiddleTextCons(t, rest);
    MiddleParamOf(ps[i], MiddleText(ps[i + 1..]) + rest);
  }

  lemma MiddleParamsAt(ps: seq<seq<byte>>, rest: seq<byte>)
    requires forall i | 0 <= i < |ps| :: IsMiddle(ps[i])
    requires rest == [] || !InClass(rest[0], Middle)
    ensures forall i | 0 <= i < |ps| ::
      MiddleParam(MiddleText(ps[i..]) + rest) == Success(ps[i], MiddleText(ps[i + 1..]) + rest)
  {
    forall i | 0 <= i < |ps|
      ensures MiddleParam(MiddleText(ps[i..]) + rest) == Success(ps[i], MiddleText(ps[i + 1..]) + rest)
    {
      MiddleParamAt(ps, i, rest);
    }
  }

  /** many_m_n! reads back up to `max` middle parameters written one after another. */
  lemma ManyMiddleRoundTrip(ps: seq<seq<byte>>, rest: seq<byte>, max: nat)
    requires |ps| <= max && forall i | 0 <= i < |ps| :: IsMiddle(ps[i])
    requires rest == [] || !InClass(rest[0], Middle)
    requires |ps| == max || MiddleParam(rest).Failure?
    ensures Many(MiddleParam, MiddleText(ps) + rest, max) == Success(ps, rest)
  {
    MiddleParamsAt(ps, rest);
    ManyRoundTrip(MiddleParam, MiddleText, ps, rest, max);
  }

  /** params_parser puts its two halves together. */
  lemma ParamsCons(s: seq<byte>, middle: seq<seq<byte>>, afterMiddle: seq<byte>, trailing: Option<seq<byte>>,
                   rest: seq<byte>)
    requires MiddleParamsParser(s) == Success(middle, afterMiddle)
    requires TrailingParamParser(afterMiddle) == Success(trailing, rest)
    ensures ParamsParser(s) == Success(if trailing.Some? then middle + [trailing.value] else middle, rest)
  {
  }

  /** Nothing more to read: no middle parameter and no trailing one. */
  lemma NoMoreParams(rest: seq<byte>)
    requires rest == [] || !InClass(rest[0], Trailing)
    ensures MiddleParam(rest).Failure?
    ensures TrailingParamParser(rest) == Success(None, rest)
  {
    NoTrailingIntro(rest);
  }

  /** A middle parameter cannot start with ':', so " :" ends the run of middle parameters. */
  lemma ColonEndsMiddle(last: seq<byte>, rest: seq<byte>)
    ensures MiddleParam(SpaceColon + last + rest).Failure?
  {
    var s := SpaceColon + last + rest;
    assert s[1..][0] == ':';
  }

  lemma TrailingOf(intro: seq<byte>, last: seq<byte>, rest: seq<byte>)
    requires intro == SpaceColon || (intro == Space && last != [] && last[0] != ':')
    requires IsTrailing(last) && (rest == [] || !InClass(rest[0], Trailing))
    ensures TrailingParamParser(intro + last + rest) == Success(Some(last), rest)
  {
    var s := intro + last + rest;
    assert TrailingIntro(s) == intro by {
      if intro == Space { assert s[1] == last[0]; }
    }
    assert s[|intro|..] == last + rest;
    TakeWhile1OfRun(last, rest, Trailing);
  }

  /**
   * from_utf8 guards every parameter: a run of parameter bytes that is not UTF-8 is no
   * middle parameter, and after " :" it is no trailing parameter either (the option comes
   * back empty and nothing is consumed).
   */
  lemma NonUtf8ParamRejected(t: seq<byte>, rest: seq<byte>)
    requires t != [] && AllIn(t, Middle) && !ValidUtf8(t)
    requires rest == [] || !InClass(rest[0], Trailing)
    ensures MiddleParam(Space + t + rest).Failure?
    ensures TrailingParamParser(SpaceColon + t + rest) == Success(None, SpaceColon + t + rest)
  {
    NonUtf8MiddleRejected(t, rest);
    NonUtf8TrailingRejected(t, rest);
  }

  /** A maximal run of middle bytes that is not UTF-8 is no middle parameter. */
  lemma NonUtf8MiddleRejected(t: seq<byte>, rest: seq<byte>)
    requires t != [] && AllIn(t, Middle) && !ValidUtf8(t)
    requires rest == [] || !InClass(rest[0], Middle)
    ensures MiddleParam(Space + t + rest).Failure?
  {
    NotUtf8Run(t, rest, Middle);
    SpaceMiddleNone(t, rest);
  }

  /** After one space a middle parameter must be a UTF-8 run; otherwise the parser fails. */
  lemma SpaceMiddleNone(t: seq<byte>, rest: seq<byte>)
    requires !Utf8Run(t + rest, Middle)
    ensures MiddleParam(Space + t + rest).Failure?
  {
    assert (Space + t + rest)[1..] == t + rest;
  }

  /** After " :" a maximal run of trailing bytes that is not UTF-8 leaves the option empty. */
  lemma NonUtf8TrailingRejected(t: seq<byte>, rest: seq<byte>)
    requires t != [] && AllIn(t, Trailing) && !ValidUtf8(t)
    requires rest == [] || !InClass(rest[0], Trailing)
    ensures TrailingParamParser(SpaceColon + t + rest) == Success(None, SpaceColon + t + rest)
  {
    NotUtf8Run(t, rest, Trailing);
    ColonTrailingNone(t, rest);
  }

  /**
   * The stop after the run matters: 0xC3 alone is not UTF-8, but followed by the middle
   * byte 0xA9 it makes the two-byte sequence for U+00E9, which is a middle parameter.
   */
  lemma NonUtf8RunCompleted()
    ensures !ValidUtf8(['\U{C3}'])
    ensures MiddleParam(Space + ['\U{C3}', '\U{A9}']) == Success(['\U{C3}', '\U{A9}'], [])
  {
    var t: seq<byte> := ['\U{C3}', '\U{A9}'];
    assert InClass(t[0], Middle) && InClass(t[1], Middle);
    assert ValidUtf8(t) by { assert IsContinuation(t[1]) && t[2..] == []; }
    TakeWhileOfRun(t, [], Middle);
    assert t + [] == t && (Space + t)[1..] == t;
  }

  /** A run of class `k` that is not UTF-8 makes no UTF-8 run, whatever stops it. */
  lemma NotUtf8Run(t: seq<byte>, rest: seq<byte>, k: ByteClass)
    requires t != [] && AllIn(t, k) && !ValidUtf8(t)
    requires rest == [] || !InClass(rest[0], k)
    ensures !Utf8Run(t + rest, k)
  {
    TakeWhileOfRun(t, rest, k);
  }

  /** After " :" the trailing text must be a UTF-8 run; otherwise the option is empty. */
  lemma ColonTrailingNone(t: seq<byte>, rest: seq<byte>)
    requires !Utf8Run(t + rest, Trailing)
    ensures TrailingParamParser(SpaceColon + t + rest) == Success(None, SpaceColon + t + rest)
  {
    var s := SpaceColon + t + rest;
    assert s[..2] == SpaceColon;
    assert s[2..] == t + rest;
  }

  /** A lone continuation byte as a parameter is rejected whichever way it is introduced. */
  lemma StrayContinuationParam(rest: seq<byte>)
    requires rest == [] || !InClass(rest[0], Trailing)
    ensures MiddleParam(Space + ['\U{80}'] + rest).Failure?
    ensures TrailingParamParser(SpaceColon + ['\U{80}'] + rest).value.None?
  {
    StrayContinuationRejected();
    NonUtf8ParamRejected(['\U{80}'], rest);
  }

  /** The parameters as written, split before the last one. */
  lemma ParamsWrittenSplit(ps: seq<seq<byte>>, colon: bool, rest: seq<byte>)
    requires ps != []
    ensures var last := ps[|ps| - 1];
      ParamsWritten(ps, colon) + rest
      == MiddleText(ps[..|ps| - 1]) + ((if colon then SpaceColon else Space) + last + rest)
  {
    var last := ps[|ps| - 1];
    var intro := if colon then SpaceColon else Space;
    Assoc(MiddleText(ps[..|ps| - 1]), intro, last);
    Assoc(MiddleText(ps[..|ps| - 1]), intro + last, rest);
  }

  /** No middle parameter at the head of `s`: the run of them is empty. */
  lemma NoMiddleParams(s: seq<byte>)
    requires MiddleParam(s).Failure?
    ensures MiddleParamsParser(s) == Success([], s)
  {
  }

  lemma ParamsRoundTripEmpty(rest: seq<byte>)
    requires MiddleParam(rest).Failure? && TrailingParamParser(rest).value.None?
    ensures ParamsParser(rest) == Success([], rest)
  {
    NoMiddleParams(rest);
    ParamsCons(rest, [], rest, None, rest);
  }

  /** A last middle parameter after a plain space, with room left: read among the middle ones. */
  lemma ParamsRoundTripMiddle(ps: seq<seq<byte>>, rest: seq<byte>)
    requires WellFormedParams(ps) && ps != [] && IsMiddle(ps[|ps| - 1]) && |ps| <= MaxMiddle
    requires StopsMiddle(rest) && (|ps| < MaxMiddle ==> MiddleParam(rest).Failure?)
    requires TrailingParamParser(rest).value.None?
    ensures ParamsParser(ParamsWritten(ps, false) + rest) == Success(ps, rest)
  {
    var init := ps[..|ps| - 1];
    var last := ps[|ps| - 1];
    InitLast(ps);
    MiddleTextSnoc(init, last);
    ParamsWrittenSplit(ps, false, rest);
    ManyMiddleRoundTrip(ps, rest, MaxMiddle);
    ParamsCons(ParamsWritten(ps, false) + rest, ps, rest, None, rest);
  }

  /** A middle parameter cannot start with a space, so a space-led last parameter ends the run. */
  lemma SpaceLedStopsMiddle(last: seq<byte>, rest: seq<byte>)
    requires last != [] && last[0] == ' '
    ensures MiddleParam(Space + last + rest).Failure?
  {
    var s := Space + last + rest;
    assert s[1..][0] == ' ';
  }

  /**
   * After " :", or after a space once fourteen middle ones are read or when it starts
   * with a space, the last is the trailing one.
   */
  lemma ParamsRoundTripTrailing(ps: seq<seq<byte>>, colon: bool, rest: seq<byte>)
    requires WellFormedParams(ps) && ps != []
    requires colon || (ps[|ps| - 1][0] != ':' && (|ps| == MaxMiddle + 1 || ps[|ps| - 1][0] == ' '))
    requires rest == [] || !InClass(rest[0], Trailing)
    ensures ParamsParser(ParamsWritten(ps, colon) + rest) == Success(ps, rest)
  {
    var init := ps[..|ps| - 1];
    var last := ps[|ps| - 1];
    var intro := if colon then SpaceColon else Space;
    var after := intro + last + rest;
    ParamsWrittenSplit(ps, colon, rest);
    if colon {
      ColonEndsMiddle(last, rest);
    } else if |ps| <= MaxMiddle {
      SpaceLedStopsMiddle(last, rest);
    }
    ManyMiddleRoundTrip(init, after, MaxMiddle);
    TrailingOf(intro, last, rest);
    InitLast(ps);
    ParamsCons(ParamsWritten(ps, colon) + rest, init, after, Some(last), rest);
  }

  /**
   * The contract of params_parser determines its result: any list, introducer choice and
   * rest that meet it are exactly what it returns.
   */
  lemma ParamsParserExact(s: seq<byte>, ps: seq<seq<byte>>, colon: bool, rest: seq<byte>)
    requires WellFormedParams(ps) && ParamsRead(s, ps, colon, rest)
    requires TrailingParamParser(rest).value.None?
    requires |ps| < MaxMiddle ==> MiddleParam(rest).Failure?
    ensures ParamsParser(s) == Success(ps, rest)
  {
    if ps == [] {
      assert s == rest;
      ParamsRoundTripEmpty(rest);
    } else if !colon && |ps| <= MaxMiddle && IsMiddle(ps[|ps| - 1]) {
      ParamsRoundTripMiddle(ps, rest);
    } else {
      ParamsRoundTripTrailing(ps, colon, rest);
    }
  }

  /**
   * params_parser reads back any well-formed parameter list written with " :" before its
   * last entry, or with a plain space where that last entry still reads back whole.
   */
  lemma ParamsWrittenRoundTrip(ps: seq<seq<byte>>, colon: bool, rest: seq<byte>)
    requires WellFormedParams(ps) && ReadsBack(ps, colon)
    requires rest == [] || !InClass(rest[0], Trailing)
    ensures ParamsParser(ParamsWritten(ps, colon) + rest) == Success(ps, rest)
  {
    NoMoreParams(rest);
    TrailingStopsMiddle(rest);
    ParamsParserExact(ParamsWritten(ps, colon) + rest, ps, colon, rest);
  }

  /** A last parameter starting with a space, after a plain space, is read whole as the trailing one. */
  lemma SpaceLedLastReads(ms: seq<seq<byte>>, last: seq<byte>, rest: seq<byte>)
    requires |ms| <= MaxMiddle && forall i | 0 <= i < |ms| :: IsMiddle(ms[i])
    requires IsTrailing(last) && last[0] == ' '
    requires rest == [] || !InClass(rest[0], Trailing)
    ensures ParamsParser(MiddleText(ms) + Space + last + rest) == Success(ms + [last], rest)
  {
    var ps := ms + [last];
    assert ps[..|ps| - 1] == ms && ps[|ps| - 1] == last;
    assert WellFormedParams(ps) by {
      assert forall i | 0 <= i < |ps| - 1 :: ps[i] == ms[i];
    }
    ParamsWrittenRoundTrip(ps, false, rest);
  }

  /**
   * Once fourteen middle parameters are read no more are tried: a fifteenth after a plain
   * space is the trailing parameter, spaces and all, unless it starts with ':'.
   */
  lemma FifteenthTakesRest(ms: seq<seq<byte>>, last: seq<byte>, rest: seq<byte>)
    requires |ms| == MaxMiddle && forall i | 0 <= i < |ms| :: IsMiddle(ms[i])
    requires IsTrailing(last) && last[0] != ':'
    requires rest == [] || !InClass(rest[0], Trailing)
    ensures ParamsParser(MiddleText(ms) + Space + last + rest) == Success(ms + [last], rest)
  {
    var ps := ms + [last];
    assert ps[..|ps| - 1] == ms && ps[|ps| - 1] == last;
    assert WellFormedParams(ps) by {
      assert forall i | 0 <= i < |ps| - 1 :: ps[i] == ms[i];
    }
    ParamsWrittenRoundTrip(ps, false, rest);
  }

  /** params_parser reads back any well-formed parameter list written the canonical way. */
  lemma ParamsRoundTrip(ps: seq<seq<byte>>, rest: seq<byte>)
    requires WellFormedParams(ps)
    requires rest == [] || !InClass(rest[0], Trailing)
    ensures ParamsParser(ParamsText(ps) + rest) == Success(ps, rest)
  {
    ParamsWrittenRoundTrip(ps, NeedsColon(ps), rest);
  }

  // ---------------------------------------------------------------------------
  // Whole lines
  // ---------------------------------------------------------------------------

  lemma CommandRoundTrip(c: seq<byte>, rest: seq<byte>)
    requires IsCommand(c) && (rest == [] || !InClass(rest[0], Alphanumeric))
    ensures RawCommandParser(c + rest) == Success(c, rest)
  {
    if AllIn(c, Digit) {
      TakeWhile1OfRun(c, rest, Digit);
    } else {
      assert !InClass(c[0], Digit);
      TakeWhile1OfRun(c, rest, Alpha);
    }
    AsciiAlphanumeric(c);
  }

  lemma WrittenSplit(ev: RawEvent, colon: bool, rest: seq<byte>)
    ensures EventWritten(ev, colon) + rest
         == PrefixPart(ev.prefix) + (ev.command + (ParamsWritten(ev.params, colon) + (CRLF + rest)))
  {
    var pp, pw := PrefixPart(ev.prefix), ParamsWritten(ev.params, colon);
    Assoc(pp + ev.command + pw, CRLF, rest);
    Assoc(pp + ev.command, pw, CRLF + rest);
    Assoc(pp, ev.command, pw + (CRLF + rest));
  }

  /** raw_event_parser chains its parts. */
  lemma RawEventCons(s: seq<byte>, prefix: Option<Prefix>, afterPrefix: seq<byte>, command: seq<byte>,
                     afterCommand: seq<byte>, params: seq<seq<byte>>, rest: seq<byte>)
    requires prefix.Some? ==> PrefixParser(s) == Success(prefix.value, afterPrefix)
    requires prefix.None? ==> PrefixParser(s).Failure? && afterPrefix == s
    requires RawCommandParser(afterPrefix) == Success(command, afterCommand)
    requires ParamsParser(afterCommand) == Success(params, CRLF + rest)
    ensures RawEventParser(s) == Success(RawEvent(prefix, command, params), rest)
  {
    assert (CRLF + rest)[..2] == CRLF && (CRLF + rest)[2..] == rest;
  }

  /** The prefix part of a written message is read back, or is absent and nothing is consumed. */
  lemma PrefixPartOf(prefix: Option<Prefix>, c: byte, tail: seq<byte>)
    requires prefix.Some? ==> ValidPrefix(prefix.value)
    requires c != ':'
    ensures var s := PrefixPart(prefix) + ([c] + tail);
      (prefix.Some? ==> PrefixParser(s) == Success(prefix.value, [c] + tail))
      && (prefix.None? ==> PrefixParser(s).Failure?)
  {
    if prefix.Some? {
      Assoc(Colon, PrefixText(prefix.value), Space);
      Assoc(Colon, PrefixText(prefix.value) + Space, [c] + tail);
      PrefixRoundTrip(prefix.value, [c] + tail);
    }
  }

  /** What follows the command starts with a space or with CR. */
  lemma AfterCommandStops(params: seq<seq<byte>>, colon: bool, rest: seq<byte>)
    ensures var t := ParamsWritten(params, colon) + (CRLF + rest); t != [] && (t[0] == ' ' || t[0] == '\r')
  {
    if params != [] {
      var w := ParamsWritten(params, colon);
      assert (w + (CRLF + rest))[0] == w[0];
      if params[..|params| - 1] == [] {
        assert w[0] == ' ';
      } else {
        assert w[0] == MiddleText(params[..|params| - 1])[0] == ' ';
      }
    }
  }

  /** Each part of raw_event_parser reads its own piece of a written message. */
  lemma EventPartsOf(ev: RawEvent, colon: bool, rest: seq<byte>)
    requires WellFormed(ev) && ReadsBack(ev.params, colon)
    ensures var afterCommand := ParamsWritten(ev.params, colon) + (CRLF + rest);
      var afterPrefix := ev.command + afterCommand;
      var s := PrefixPart(ev.prefix) + afterPrefix;
      && (ev.prefix.Some? ==> PrefixParser(s) == Success(ev.prefix.value, afterPrefix))
      && (ev.prefix.None? ==> PrefixParser(s).Failure? && afterPrefix == s)
      && RawCommandParser(afterPrefix) == Success(ev.command, afterCommand)
      && ParamsParser(afterCommand) == Success(ev.params, CRLF + rest)
  {
    var afterCommand := ParamsWritten(ev.params, colon) + (CRLF + rest);
    var afterPrefix := ev.command + afterCommand;
    assert afterPrefix == [ev.command[0]] + (ev.command[1..] + afterCommand);
    PrefixPartOf(ev.prefix, ev.command[0], ev.command[1..] + afterCommand);
    CommandPartsOf(ev.command, ev.params, colon, rest);
  }

  /** The command and the parameters of a written message read back. */
  lemma CommandPartsOf(command: seq<byte>, params: seq<seq<byte>>, colon: bool, rest: seq<byte>)
    requires IsCommand(command) && WellFormedParams(params) && ReadsBack(params, colon)
    ensures var afterCommand := ParamsWritten(params, colon) + (CRLF + rest);
      && RawCommandParser(command + afterCommand) == Success(command, afterCommand)
      && ParamsParser(afterCommand) == Success(params, CRLF + rest)
  {
    var afterCommand := ParamsWritten(params, colon) + (CRLF + rest);
    AfterCommandStops(params, colon, rest);
    CommandRoundTrip(command, afterCommand);
    ParamsWrittenRoundTrip(params, colon, CRLF + rest);
  }

  /**
   * raw_event_parser reads back every well-formed message written with " :" before its
   * last parameter, or without where that parameter still reads back whole, and stops
   * right after its CRLF.
   */
  lemma EventWrittenRoundTrip(ev: RawEvent, colon: bool, rest: seq<byte>)
    requires WellFormed(ev) && ReadsBack(ev.params, colon)
    ensures RawEventParser(EventWritten(ev, colon) + rest) == Success(ev, rest)
  {
    var afterCommand := ParamsWritten(ev.params, colon) + (CRLF + rest);
    var afterPrefix := ev.command + afterCommand;
    WrittenSplit(ev, colon, rest);
    EventPartsOf(ev, colon, rest);
    RawEventCons(EventWritten(ev, colon) + rest, ev.prefix, afterPrefix, ev.command, afterCommand, ev.params, rest);
  }

  /** `s` starts with `ev` written with `colon` as the introducer choice, in a way that reads back whole. */
  predicate IsWritingOf(s: seq<byte>, ev: RawEvent, colon: bool, rest: seq<byte>)
  {
    WellFormed(ev) && ReadsBack(ev.params, colon) && s == EventWritten(ev, colon) + rest
  }

  /**
   * raw_event_parser succeeds exactly on the messages written in a way that reads back
   * whole, and then returns the message written and what follows its CRLF.
   */
  lemma RawEventParserExact(s: seq<byte>)
    ensures RawEventParser(s).Success? <==> exists ev, colon, rest :: IsWritingOf(s, ev, colon, rest)
    ensures forall ev, colon, rest | IsWritingOf(s, ev, colon, rest) :: RawEventParser(s) == Success(ev, rest)
  {
    forall ev, colon, rest | IsWritingOf(s, ev, colon, rest)
      ensures RawEventParser(s) == Success(ev, rest)
    {
      EventWrittenRoundTrip(ev, colon, rest);
    }
    var r := RawEventParser(s);
    if r.Success? {
      var colon := !(s == EventWritten(r.value, false) + r.rest && ReadsBack(r.value.params, false));
      assert IsWritingOf(s, r.value, colon, r.rest);
    }
  }

  /** The canonical writing of a well-formed message always reads back. */
  lemma CanonicalReadsBack(ps: seq<seq<byte>>)
    ensures ReadsBack(ps, NeedsColon(ps))
  {
  }

  /** raw_event_parser reads back every well-formed message written the canonical way. */
  lemma RawEventRoundTrip(ev: RawEvent, rest: seq<byte>)
    requires WellFormed(ev)
    ensures RawEventParser(Render(ev) + rest) == Success(ev, rest)
  {
    CanonicalReadsBack(ev.params);
    EventWrittenRoundTrip(ev, NeedsColon(ev.params), rest);
  }

  /** Any line the parser accepts is read the same way once written out again. */
  lemma ParseRenderParse(s: seq<byte>)
    requires RawEventParser(s).Success?
    ensures RawEventParser(Render(RawEventParser(s).value) + RawEventParser(s).rest) == RawEventParser(s)
  {
    RawEventRoundTrip(RawEventParser(s).value, RawEventParser(s).rest);
  }

  /** A line parses only if it contains a CRLF; so a line with none maps to `Unknown`. */
  lemma LineNeedsCrlf(s: seq<byte>)
    ensures RawEventParser(s).Success? ==> HasCrlf(s)
    ensures !HasCrlf(s) ==> ParseInput(s) == Unknown
  {
    var r := RawEventParser(s);
    if r.Success? {
      CrlfInSuffix(s, r.rest);
    }
  }

  /** A line that ends in CRLF followed by `rest` contains a CRLF. */
  lemma CrlfInSuffix(s: seq<byte>, rest: seq<byte>)
    requires IsSuffix(CRLF + rest, s)
    ensures HasCrlf(s)
  {
    var k := |s| - |rest| - 2;
    assert s[k..][..2] == CRLF;
    assert IsCrlfAt(s, k);
  }

  /** The event of a written message: `Ping` for PING with a parameter, `Unknown` otherwise. */
  lemma ParseInputOfWritten(ev: RawEvent, colon: bool, rest: seq<byte>)
    requires WellFormed(ev) && ReadsBack(ev.params, colon)
    ensures ParseInput(EventWritten(ev, colon) + rest)
         == if ev.command == PingCommand && |ev.params| >= 1
            then Ping(ev.params[0], if |ev.params| >= 2 then Some(ev.params[1]) else None)
            else Unknown
  {
    EventWrittenRoundTrip(ev, colon, rest);
  }

  /** The same for the canonical writing. */
  lemma ParseInputOfRendered(ev: RawEvent, rest: seq<byte>)
    requires WellFormed(ev)
    ensures ParseInput(Render(ev) + rest)
         == if ev.command == PingCommand && |ev.params| >= 1
            then Ping(ev.params[0], if |ev.params| >= 2 then Some(ev.params[1]) else None)
            else Unknown
  {
    RawEventRoundTrip(ev, rest);
  }

  /** The usual keep-alive from a server, "PING :" and its name, becomes `Ping` with that name alone. */
  lemma ServerPingOf(server: seq<byte>, rest: seq<byte>)
    requires IsTrailing(server)
    ensures ParseInput(PingCommand + SpaceColon + server + CRLF + rest) == Ping(server, None)
  {
    var ev := RawEvent(None, PingCommand, [server]);
    assert ParamsWritten(ev.params, true) == SpaceColon + server by {
      assert ev.params[..0] == [];
    }
    assert IsCommand(PingCommand) by {
      assert AllIn(PingCommand, Alpha);
    }
    assert EventWritten(ev, true) == PingCommand + SpaceColon + server + CRLF;
    ParseInputOfWritten(ev, true, rest);
  }

  // ---------------------------------------------------------------------------
  // The lines of the parser's own tests
  // ---------------------------------------------------------------------------

  lemma AsciiMiddle(p: seq<byte>)
    requires p != [] && AllIn(p, Middle) && AllAscii(p)
    ensures IsMiddle(p)
  {
    AsciiIsUtf8(p);
  }

  lemma AsciiTrailing(p: seq<byte>)
    requires p != [] && AllIn(p, Trailing) && AllAscii(p)
    ensures IsTrailing(p)
  {
    AsciiIsUtf8(p);
  }
}
