/**
 * The IRC line grammar (section 2.3.1 of RFC 1459) as recursive-descent parsers.
 *
 * Every parser takes the whole remaining input and either fails or returns a
 * value together with the input it did not consume. Inputs are complete: a run
 * that reaches the end of the input simply stops there.
 */
module Parser {
  import opened Wire
  import opened Utf8
  import opened Events

  datatype ParseResult<+T> = Success(value: T, rest: seq<byte>) | Failure

  // ---------------------------------------------------------------------------
  // Byte classes
  // ---------------------------------------------------------------------------

  predicate IsDigit(c: byte) { '0' <= c <= '9' }

  predicate IsAlpha(c: byte) { 'A' <= c <= 'Z' || 'a' <= c <= 'z' }

  predicate IsAlphanumeric(c: byte) { IsDigit(c) || IsAlpha(c) }

  /**
   * `c` is an ASCII letter or digit, or one of the bytes of `special`. The first clause
   * only spells the test out over digits and letters; the second is what callers use:
   * a byte accepted other than through `special` is ASCII.
   */
  function IsSpecialAlphanum(c: byte, special: set<byte>): (r: bool)
    ensures r <==> c in special || IsDigit(c) || IsAlpha(c)
    ensures r && c !in special ==> c as int < 0x80
  {
    c in special || IsAlphanumeric(c)
  }

  // Punctuation of the grammar
  const Colon: seq<byte> := ":"
  const Space: seq<byte> := " "
  const SpaceColon: seq<byte> := " :"
  const Bang: seq<byte> := "!"
  const At: seq<byte> := "@"

  const HostSpecial: set<byte> := {'.'}
  const NickSpecial: set<byte> := {'[', ']', '\\', '`', '_', '^', '{', '|', '}', '-'}

  /** Bytes a middle parameter may not contain. */
  const MiddleStop: set<byte> := {'\0', '\r', '\n', ' ', ':'}
  /** Bytes the trailing parameter may not contain. */
  const TrailingStop: set<byte> := {'\0', '\r', '\n'}

  /** The byte classes the grammar's runs are made of. */
  datatype ByteClass = Digit | Alpha | Alphanumeric | Host | Nick | Middle | Trailing

  predicate InClass(c: byte, k: ByteClass)
  {
    match k
    case Digit => IsDigit(c)
    case Alpha => IsAlpha(c)
    case Alphanumeric => IsAlphanumeric(c)
    case Host => IsSpecialAlphanum(c, HostSpecial)
    case Nick => IsSpecialAlphanum(c, NickSpecial)
    case Middle => c !in MiddleStop
    case Trailing => c !in TrailingStop
  }

  /** Every byte of `s` is in class `k`. */
  predicate AllIn(s: seq<byte>, k: ByteClass)
  {
    forall i | 0 <= i < |s| :: InClass(s[i], k)
  }

  // ---------------------------------------------------------------------------
  // Tokens
  // ---------------------------------------------------------------------------

  /** A middle parameter: non-empty, none of NUL CR LF space colon, valid UTF-8. */
  predicate IsMiddle(p: seq<byte>)
  {
    p != [] && AllIn(p, Middle) && ValidUtf8(p)
  }

  /** A trailing parameter: non-empty, none of NUL CR LF, valid UTF-8. */
  predicate IsTrailing(p: seq<byte>)
  {
    p != [] && AllIn(p, Trailing) && ValidUtf8(p)
  }

  /** A command: a non-empty run of digits or a non-empty run of letters. */
  predicate IsCommand(c: seq<byte>)
  {
    c != [] && (AllIn(c, Digit) || AllIn(c, Alpha))
  }

  predicate ValidPrefix(p: Prefix)
  {
    match p
    case Server(host) => AllIn(host, Host)
    case User(nick, username, host) =>
      AllIn(nick, Nick) && AllIn(host, Host)
      && (username.Some? ==> username.value != [] && AllIn(username.value, Alphanumeric))
  }

  /** At most 14 middle parameters, then possibly one trailing parameter as the last entry. */
  predicate WellFormedParams(ps: seq<seq<byte>>)
  {
    |ps| <= 15
    && (forall i | 0 <= i < |ps| - 1 :: IsMiddle(ps[i]))
    && (ps != [] ==> IsTrailing(ps[|ps| - 1]))
  }

  /** `t` is what remains of `s` after a prefix of it was consumed. */
  predicate IsSuffix(t: seq<byte>, s: seq<byte>)
  {
    |t| <= |s| && s[|s| - |t|..] == t
  }

  predicate WellFormed(ev: RawEvent)
  {
    (ev.prefix.Some? ==> ValidPrefix(ev.prefix.value))
    && IsCommand(ev.command)
    && WellFormedParams(ev.params)
  }

  // ---------------------------------------------------------------------------
  // Run primitives (nom's take_while!, and the one-or-more runs alphanumeric,
  // digit, alpha and is_not!)
  // ---------------------------------------------------------------------------

  /** Length of the longest prefix of `s` whose bytes are all in class `k`. */
  function Span(s: seq<byte>, k: ByteClass): (n: nat)
    ensures n <= |s|
    ensures forall i | 0 <= i < n :: InClass(s[i], k)
    ensures n < |s| ==> !InClass(s[n], k)
  {
    SpanFrom(s, k, 0)
  }

  function SpanFrom(s: seq<byte>, k: ByteClass, j: nat): (n: nat)
    requires j <= |s|
    requires forall i | 0 <= i < j :: InClass(s[i], k)
    ensures j <= n <= |s|
    ensures forall i | 0 <= i < n :: InClass(s[i], k)
    ensures n < |s| ==> !InClass(s[n], k)
    decreases |s| - j
  {
    if j == |s| || !InClass(s[j], k) then j else SpanFrom(s, k, j + 1)
  }

  /** take_while!: the longest (possibly empty) run of bytes of class `k`. */
  function TakeWhile(s: seq<byte>, k: ByteClass): (r: ParseResult<seq<byte>>)
    ensures r.Success? && r.value + r.rest == s
    ensures AllIn(r.value, k) && (r.rest == [] || !InClass(r.rest[0], k))
  {
    var n := Span(s, k);
    assert s[..n] + s[n..] == s;
    assert forall i | 0 <= i < n :: s[..n][i] == s[i];
    Success(s[..n], s[n..])
  }

  /** The one-or-more run: fails exactly when the first byte is not in class `k`. */
  function TakeWhile1(s: seq<byte>, k: ByteClass): (r: ParseResult<seq<byte>>)
    ensures r.Success? <==> s != [] && InClass(s[0], k)
    ensures r.Success? ==> r.value != [] && r.value + r.rest == s
    ensures r.Success? ==> AllIn(r.value, k) && (r.rest == [] || !InClass(r.rest[0], k))
  {
    var t := TakeWhile(s, k);
    if t.value == [] then Failure else t
  }

  /** map_res!(..., std::str::from_utf8): a token that is not UTF-8 is a parse error. */
  function MapUtf8(r: ParseResult<seq<byte>>): ParseResult<seq<byte>>
  {
    if r.Success? && ValidUtf8(r.value) then r else Failure
  }

  /** `t` starts with a byte of class `k`, and the longest run of such bytes is valid UTF-8. */
  predicate Utf8Run(t: seq<byte>, k: ByteClass)
  {
    t != [] && InClass(t[0], k) && ValidUtf8(TakeWhile(t, k).value)
  }

  // ---------------------------------------------------------------------------
  // Prefix
  // ---------------------------------------------------------------------------

  /** host_parser: the longest run of letters, digits and dots. */
  function HostParser(s: seq<byte>): (r: ParseResult<seq<byte>>)
    ensures r.Success? && r.value + r.rest == s
    ensures AllIn(r.value, Host) && (r.rest == [] || !InClass(r.rest[0], Host))
  {
    var t := TakeWhile(s, Host);
    AsciiHost(t.value);
    MapUtf8(t)
  }

  /** nick_parser: the longest run of letters, digits and the nick specials. */
  function NickParser(s: seq<byte>): (r: ParseResult<seq<byte>>)
    ensures r.Success? && r.value + r.rest == s
    ensures AllIn(r.value, Nick) && (r.rest == [] || !InClass(r.rest[0], Nick))
  {
    var t := TakeWhile(s, Nick);
    AsciiNick(t.value);
    MapUtf8(t)
  }

  /** server_prefix_parser */
  function ServerPrefixParser(s: seq<byte>): (r: ParseResult<Prefix>)
    ensures r.Success? && r.value.Server? && ValidPrefix(r.value)
    ensures s == PrefixText(r.value) + r.rest
    ensures r.rest == [] || !InClass(r.rest[0], Host)
  {
    var h := HostParser(s);
    Success(Server(h.value), h.rest)
  }

  /** opt!(preceded!(tag!("!"), alphanumeric)): the username, or nothing consumed. */
  function UsernameParser(s: seq<byte>): (r: ParseResult<Option<seq<byte>>>)
    ensures r.Success?
    ensures r.value.Some? <==> |s| >= 2 && s[0] == '!' && IsAlphanumeric(s[1])
    ensures r.value.None? ==> r.rest == s
    ensures r.value.Some? ==>
      r.value.value != [] && AllIn(r.value.value, Alphanumeric)
      && s == Bang + r.value.value + r.rest
      && (r.rest == [] || !InClass(r.rest[0], Alphanumeric))
  {
    if s != [] && s[0] == '!' then
      var run := TakeWhile1(s[1..], Alphanumeric);
      BangRun(s, run);
      if run.Success? then Success(Some(run.value), run.rest) else Success(None, s)
    else Success(None, s)
  }

  /** The alphanumeric run after a leading '!': present exactly when the next byte starts one. */
  lemma BangRun(s: seq<byte>, run: ParseResult<seq<byte>>)
    requires s != [] && s[0] == '!' && run == TakeWhile1(s[1..], Alphanumeric)
    ensures run.Success? <==> |s| >= 2 && IsAlphanumeric(s[1])
    ensures run.Success? ==>
      run.value != [] && AllIn(run.value, Alphanumeric)
      && s == Bang + run.value + run.rest
      && (run.rest == [] || !InClass(run.rest[0], Alphanumeric))
  {
    if |s| >= 2 {
      assert s[1..][0] == s[1];
    }
    LeadingByte(s, Bang);
  }

  /** user_prefix_parser: nick, optional "!username", then "@" and a host. */
  function UserPrefixParser(s: seq<byte>): (r: ParseResult<Prefix>)
    ensures r.Success? ==> r.value.User? && ValidPrefix(r.value)
    ensures r.Success? ==> s == PrefixText(r.value) + r.rest
    ensures r.Success? ==> r.rest == [] || !InClass(r.rest[0], Host)
  {
    var nick := NickParser(s);
    var user := UsernameParser(nick.rest);
    if user.rest != [] && user.rest[0] == '@' then
      var host := HostParser(user.rest[1..]);
      var p := User(nick.value, user.value, host.value);
      var name := UsernameText(user.value);
      UsernameSplit(nick.rest);
      ReassembleUser(s, nick.value, nick.rest, name, user.rest, host.value, host.rest);
      Success(p, host.rest)
    else Failure
  }

  /** prefix_parser: ':' then the user form, or else the server form, then one space. */
  function PrefixParser(s: seq<byte>): (r: ParseResult<Prefix>)
    ensures r.Success? ==> ValidPrefix(r.value) && s == Colon + PrefixText(r.value) + Space + r.rest
  {
    if s != [] && s[0] == ':' then
      var user := UserPrefixParser(s[1..]);
      var alt := if user.Success? then user else ServerPrefixParser(s[1..]);
      assert alt.Success? && ValidPrefix(alt.value) && s[1..] == PrefixText(alt.value) + alt.rest;
      if alt.rest != [] && alt.rest[0] == ' ' then
        Reassemble(s, PrefixText(alt.value), alt.rest);
        Success(alt.value, alt.rest[1..])
      else Failure
    else Failure
  }

  /** The bytes a prefix is written as, without the leading ':' and the trailing space. */
  function PrefixText(p: Prefix): seq<byte>
  {
    match p
    case Server(host) => host
    case User(nick, username, host) =>
      nick + UsernameText(username) + At + host
  }

  /** The "!username" part as written, or nothing. */
  function UsernameText(username: Option<seq<byte>>): seq<byte>
  {
    if username.Some? then Bang + username.value else []
  }

  /** Whatever the username parser takes is the "!username" part as written. */
  lemma UsernameSplit(s: seq<byte>)
    ensures s == UsernameText(UsernameParser(s).value) + UsernameParser(s).rest
  {
    var user := UsernameParser(s);
    if user.value.None? {
      assert UsernameText(user.value) == [];
    }
  }

  // ---------------------------------------------------------------------------
  // Parameters
  // ---------------------------------------------------------------------------

  /** preceded!(char!(' '), map_res!(is_not!("\0\r\n :"), from_utf8)) */
  function MiddleParam(s: seq<byte>): (r: ParseResult<seq<byte>>)
    ensures r.Success? <==> s != [] && s[0] == ' ' && Utf8Run(s[1..], Middle)
    ensures r.Success? ==> IsMiddle(r.value) && s == Space + r.value + r.rest
    ensures r.Success? ==> r.rest == [] || !InClass(r.rest[0], Middle)
    ensures r.Success? ==> IsSuffix(r.rest, s)
  {
    if s != [] && s[0] == ' ' then
      var r := MapUtf8(TakeWhile1(s[1..], Middle));
      if r.Success? then SuffixOfConcat(Space + r.value, r.rest); r else r
    else Failure
  }

  /** Each parameter preceded by one space: how middle parameters are written. */
  function MiddleText(ps: seq<seq<byte>>): seq<byte>
  {
    if ps == [] then [] else Space + ps[0] + MiddleText(ps[1..])
  }

  /**
   * many_m_n!(0, max, p): apply `p` as long as it succeeds, at most `max`
   * times, and collect its values. A failure of `p` ends the run without
   * consuming anything. many_m_n! also stops when `p` succeeds without
   * consuming; the one parser it is applied to, `MiddleParam`, consumes at
   * least two bytes whenever it succeeds, so that stop is not modelled.
   */
  function Many<T>(p: seq<byte> -> ParseResult<T>, s: seq<byte>, max: nat): (r: ParseResult<seq<T>>)
    ensures r.Success? && |r.value| <= max
    ensures |r.value| < max ==> p(r.rest).Failure?
    decreases max
  {
    if max == 0 then Success([], s)
    else
      match p(s)
      case Failure => Success([], s)
      case Success(v, rest) =>
        var more := Many(p, rest, max - 1);
        Success([v] + more.value, more.rest)
  }

  /**
   * When every success of `p` yields a value satisfying `P` and leaves a
   * suffix of its input, so does the run.
   */
  lemma {:induction false} ManyKeeps<T>(p: seq<byte> -> ParseResult<T>, P: T -> bool, s: seq<byte>, max: nat)
    requires forall t :: p(t).Success? ==> P(p(t).value) && IsSuffix(p(t).rest, t)
    ensures var r := Many(p, s, max);
      (forall i | 0 <= i < |r.value| :: P(r.value[i])) && IsSuffix(r.rest, s)
    decreases max
  {
    if max > 0 && p(s).Success? {
      var rest := p(s).rest;
      ManyKeeps(p, P, rest, max - 1);
      var more := Many(p, rest, max - 1);
      assert forall i | 1 <= i < |more.value| + 1 :: ([p(s).value] + more.value)[i] == more.value[i - 1];
      SuffixTransitive(more.rest, rest, s);
    }
  }

  /**
   * When every success of `p` leaves input satisfying `Q`, so does a run that read at
   * least one value; a run that read none leaves its input untouched.
   */
  lemma {:induction false} ManyStops<T>(p: seq<byte> -> ParseResult<T>, Q: seq<byte> -> bool, s: seq<byte>, max: nat)
    requires forall t :: p(t).Success? ==> Q(p(t).rest)
    ensures var r := Many(p, s, max); r.value == [] ==> r.rest == s
    ensures var r := Many(p, s, max); r.value != [] ==> Q(r.rest)
    decreases max
  {
    if max > 0 && p(s).Success? {
      ManyStops(p, Q, p(s).rest, max - 1);
    }
  }

  /** Writing a list of middle parameters in front of `rest`, one at a time. */
  lemma MiddleTextCons(ps: seq<seq<byte>>, rest: seq<byte>)
    requires ps != []
    ensures MiddleText(ps) + rest == Space + ps[0] + (MiddleText(ps[1..]) + rest)
  {
  }

  /** Writing one more middle parameter after a list of them. */
  lemma {:induction false} MiddleTextSnoc(ps: seq<seq<byte>>, p: seq<byte>)
    ensures MiddleText(ps + [p]) == MiddleText(ps) + Space + p
    decreases ps
  {
    if ps == [] {
      assert [] + [p] == [p];
    } else {
      assert (ps + [p])[1..] == ps[1..] + [p];
      MiddleTextSnoc(ps[1..], p);
    }
  }

  /**
   * When every success of `p` consumes a space and then its value, the run consumes the
   * values written one after another as middle parameters.
   */
  lemma {:induction false} ManyConsumes(p: seq<byte> -> ParseResult<seq<byte>>, s: seq<byte>, max: nat)
    requires forall t :: p(t).Success? ==> t == Space + p(t).value + p(t).rest
    ensures var r := Many(p, s, max); s == MiddleText(r.value) + r.rest
    decreases max
  {
    if max > 0 && p(s).Success? {
      var m := p(s);
      ManyConsumes(p, m.rest, max - 1);
      var more := Many(p, m.rest, max - 1);
      MiddleTextPush(s, m.value, m.rest, more.value, more.rest);
    } else {
      assert MiddleText([]) + s == s;
    }
  }

  /** One more parameter in front of a written list: its text grows by a space and the parameter. */
  lemma MiddleTextPush(s: seq<byte>, p: seq<byte>, afterP: seq<byte>, ps: seq<seq<byte>>, rest: seq<byte>)
    requires s == Space + p + afterP && afterP == MiddleText(ps) + rest
    ensures s == MiddleText([p] + ps) + rest
  {
    var vs := [p] + ps;
    assert vs[0] == p && vs[1..] == ps;
    MiddleTextCons(vs, rest);
  }

  /** The most middle parameters a line may carry. */
  const MaxMiddle: nat := 14

  /**
   * middle_params_parser: up to fourteen middle parameters, each after a space and each
   * the longest run; fewer only when no further one can be read.
   */
  function MiddleParamsParser(s: seq<byte>): (r: ParseResult<seq<seq<byte>>>)
    ensures r.Success? && |r.value| <= MaxMiddle
    ensures forall i | 0 <= i < |r.value| :: IsMiddle(r.value[i])
    ensures s == MiddleText(r.value) + r.rest
    ensures r.value != [] ==> r.rest == [] || !InClass(r.rest[0], Middle)
    ensures |r.value| < MaxMiddle ==> MiddleParam(r.rest).Failure?
  {
    ManyKeeps(MiddleParam, IsMiddle, s, MaxMiddle);
    ManyConsumes(MiddleParam, s, MaxMiddle);
    ManyStops(MiddleParam, StopsMiddle, s, MaxMiddle);
    Many(MiddleParam, s, MaxMiddle)
  }

  /** `t` does not continue a run of middle bytes. */
  predicate StopsMiddle(t: seq<byte>)
  {
    t == [] || !InClass(t[0], Middle)
  }

  /**
   * trailing_params_parser: opt!(preceded!(alt!(tag!(" :") | tag!(" ")),
   * map_res!(is_not!("\0\r\n"), from_utf8))). The " :" introducer is tried
   * first; once it has matched, a failure of the text makes the whole option
   * empty, without trying the single space.
   */
  function TrailingParamParser(s: seq<byte>): (r: ParseResult<Option<seq<byte>>>)
    ensures r.Success?
    ensures r.value.Some? <==> TrailingIntro(s) != [] && Utf8Run(s[|TrailingIntro(s)|..], Trailing)
    ensures r.value.None? ==> r.rest == s
    ensures r.value.Some? ==>
      IsTrailing(r.value.value) && s == TrailingIntro(s) + r.value.value + r.rest
      && (r.rest == [] || !InClass(r.rest[0], Trailing))
  {
    var intro := TrailingIntro(s);
    if intro == [] then Success(None, s)
    else
      match MapUtf8(TakeWhile1(s[|intro|..], Trailing))
      case Success(text, rest) =>
        assert s == intro + s[|intro|..];
        Success(Some(text), rest)
      case Failure => Success(None, s)
  }

  /** alt!(tag!(" :") | tag!(" ")): the introducer at the head of `s`, or [] when neither matches. */
  function TrailingIntro(s: seq<byte>): (intro: seq<byte>)
    ensures intro == [] || (|intro| <= |s| && s[..|intro|] == intro)
  {
    if |s| >= 2 && s[..2] == SpaceColon then SpaceColon
    else if s != [] && s[0] == ' ' then Space
    else []
  }

  /**
   * Parameters as written on a line: each after a space, except that the last one comes
   * after " :" when `colon` holds.
   */
  function ParamsWritten(ps: seq<seq<byte>>, colon: bool): seq<byte>
  {
    if ps == [] then []
    else MiddleText(ps[..|ps| - 1]) + (if colon then SpaceColon else Space) + ps[|ps| - 1]
  }

  /**
   * Written after a plain space, the last parameter still reads back whole: it is a middle
   * parameter; or it starts with a space, so no middle parameter can start there; or
   * fourteen middle parameters come before it (so none more is tried) and it does not
   * start with ':'.
   */
  predicate BareLastReads(ps: seq<seq<byte>>)
  {
    ps != [] &&
    var last := ps[|ps| - 1];
    IsMiddle(last) || (last != [] && last[0] == ' ') || (|ps| == MaxMiddle + 1 && last != [] && last[0] != ':')
  }

  /** Written with `colon` as the introducer choice, the parameters read back as they were. */
  predicate ReadsBack(ps: seq<seq<byte>>, colon: bool)
  {
    colon || ps == [] || BareLastReads(ps)
  }

  /**
   * `rest` ends the run of the last parameter: the run of a middle parameter when the last
   * one is read among the middle ones, else the run of the trailing parameter.
   */
  predicate LastStops(ps: seq<seq<byte>>, colon: bool, rest: seq<byte>)
  {
    ps == [] ||
    if !colon && |ps| <= MaxMiddle && IsMiddle(ps[|ps| - 1]) then StopsMiddle(rest)
    else rest == [] || !InClass(rest[0], Trailing)
  }

  /** `s` is `ps` written with `colon` as the introducer choice, read back whole, then `rest`. */
  predicate ParamsRead(s: seq<byte>, ps: seq<seq<byte>>, colon: bool, rest: seq<byte>)
  {
    s == ParamsWritten(ps, colon) + rest && ReadsBack(ps, colon) && LastStops(ps, colon, rest)
  }

  /**
   * params_parser: the middle parameters, then the trailing one appended if present. What
   * it consumes is the list written with or without " :" before the last entry, in a way
   * that reads back whole; the last parameter is the longest run; and no further
   * parameter follows.
   */
  function ParamsParser(s: seq<byte>): (r: ParseResult<seq<seq<byte>>>)
    ensures r.Success? && WellFormedParams(r.value)
    ensures ParamsRead(s, r.value, false, r.rest) || ParamsRead(s, r.value, true, r.rest)
    ensures TrailingParamParser(r.rest).value.None?
    ensures |r.value| < MaxMiddle ==> MiddleParam(r.rest).Failure?
    ensures IsSuffix(r.rest, s)
  {
    var middle := MiddleParamsParser(s);
    var trailing := TrailingParamParser(middle.rest);
    var params := if trailing.value.Some? then middle.value + [trailing.value.value] else middle.value;
    ParamsWellFormed(middle.value, trailing.value);
    assert trailing.value.Some? ==> TrailingIntro(middle.rest) == SpaceColon || TrailingIntro(middle.rest) == Space;
    ParamsReadOf(s, middle.value, middle.rest, trailing.value, trailing.rest);
    assert IsSuffix(trailing.rest, middle.rest) by {
      if trailing.value.Some? {
        SuffixOfConcat(TrailingIntro(middle.rest) + trailing.value.value, trailing.rest);
      }
    }
    SuffixTransitive(trailing.rest, middle.rest, s);
    assert TrailingParamParser(trailing.rest).value.None? by {
      if trailing.value.Some? {
        NoTrailingIntro(trailing.rest);
      }
    }
    Success(params, trailing.rest)
  }

  // ---------------------------------------------------------------------------
  // Command and line
  // ---------------------------------------------------------------------------

  /** raw_command_parser: alt!(digit | alpha). */
  function RawCommandParser(s: seq<byte>): (r: ParseResult<seq<byte>>)
    ensures r.Success? <==> s != [] && InClass(s[0], Alphanumeric)
    ensures r.Success? ==> IsCommand(r.value) && s == r.value + r.rest
    ensures r.Success? && AllIn(r.value, Digit) ==> r.rest == [] || !InClass(r.rest[0], Digit)
    ensures r.Success? && AllIn(r.value, Alpha) ==> r.rest == [] || !InClass(r.rest[0], Alpha)
  {
    var digits := TakeWhile1(s, Digit);
    var run := if digits.Success? then digits else TakeWhile1(s, Alpha);
    assert run.Success? ==> ValidUtf8(run.value) by {
      if run.Success? { AsciiAlphanumeric(run.value); }
    }
    MapUtf8(run)
  }

  /** The prefix as written at the head of a line: ':', the prefix, one space; or nothing. */
  function PrefixPart(prefix: Option<Prefix>): seq<byte>
  {
    if prefix.Some? then Colon + PrefixText(prefix.value) + Space else []
  }

  /** A line as written: prefix, command, parameters (the last after " :" when `colon` holds), CRLF. */
  function EventWritten(ev: RawEvent, colon: bool): seq<byte>
  {
    PrefixPart(ev.prefix) + ev.command + ParamsWritten(ev.params, colon) + CRLF
  }

  /**
   * raw_event_parser: [prefix] command params CRLF. What it consumes is the event it
   * returns, written with or without " :" before the last parameter in a way that reads
   * back whole.
   */
  function RawEventParser(s: seq<byte>): (r: ParseResult<RawEvent>)
    ensures r.Success? ==> WellFormed(r.value)
    ensures r.Success? ==>
      (s == EventWritten(r.value, false) + r.rest && ReadsBack(r.value.params, false))
      || (s == EventWritten(r.value, true) + r.rest && ReadsBack(r.value.params, true))
    ensures r.Success? ==> IsSuffix(CRLF + r.rest, s)
  {
    var prefix := match PrefixParser(s)
                  case Success(p, rest) => Success(Some(p), rest)
                  case Failure => Success(None, s);
    var command := RawCommandParser(prefix.rest);
    if command.Failure? then Failure
    else
      var params := ParamsParser(command.rest);
      var tail := params.rest;
      if |tail| >= 2 && tail[..2] == CRLF then
        assert s == PrefixPart(prefix.value) + prefix.rest;
        EventReadOf(s, prefix.value, prefix.rest, command.value, command.rest, params.value, tail);
        Success(RawEvent(prefix.value, command.value, params.value), tail[2..])
      else Failure
  }

  /** parse_input: PING with a first parameter becomes `Ping`; everything else `Unknown`. */
  function ParseInput(s: seq<byte>): (e: Event)
    ensures var r := RawEventParser(s);
      e.Ping? <==> r.Success? && r.value.command == PingCommand && |r.value.params| >= 1
    ensures e.Ping? ==>
      var ps := RawEventParser(s).value.params;
      e.server == ps[0] && e.server2 == (if |ps| >= 2 then Some(ps[1]) else None)
    ensures e.Ping? ==> IsTrailing(e.server) && (e.server2.Some? ==> IsTrailing(e.server2.value))
  {
    match RawEventParser(s)
    case Failure => Unknown
    case Success(raw, _) =>
      if raw.command == PingCommand && |raw.params| >= 1 then
        MiddleIsTrailingParams(raw.params);
        Ping(raw.params[0], if |raw.params| >= 2 then Some(raw.params[1]) else None)
      else Unknown
  }

  // ---------------------------------------------------------------------------
  // Helper facts used by the parsers above
  // ---------------------------------------------------------------------------

  lemma AsciiHost(s: seq<byte>)
    requires AllIn(s, Host)
    ensures ValidUtf8(s)
  {
    AsciiIsUtf8(s);
  }

  lemma AsciiNick(s: seq<byte>)
    requires AllIn(s, Nick)
    ensures ValidUtf8(s)
  {
    AsciiIsUtf8(s);
  }

  lemma AsciiAlphanumeric(s: seq<byte>)
    requires AllIn(s, Alphanumeric) || AllIn(s, Digit) || AllIn(s, Alpha)
    ensures ValidUtf8(s)
  {
    AsciiIsUtf8(s);
  }

  lemma MiddleIsTrailing(p: seq<byte>)
    requires IsMiddle(p)
    ensures IsTrailing(p)
  {
  }

  lemma MiddleIsTrailingParams(ps: seq<seq<byte>>)
    requires WellFormedParams(ps)
    ensures forall i | 0 <= i < |ps| :: IsTrailing(ps[i])
  {
  }

  /** `s` = ':' text ' ' rest, from its first byte and the parse of its tail. */
  lemma Reassemble(s: seq<byte>, text: seq<byte>, tail: seq<byte>)
    requires s != [] && s[0] == ':' && s[1..] == text + tail
    requires tail != [] && tail[0] == ' '
    ensures s == Colon + text + Space + tail[1..]
  {
    assert tail == Space + tail[1..];
    assert s == [s[0]] + s[1..];
  }

  /** `s` = nick name '@' host rest, from the pieces the user-prefix parser took. */
  lemma ReassembleUser(s: seq<byte>, nick: seq<byte>, afterNick: seq<byte>, name: seq<byte>,
                       afterName: seq<byte>, host: seq<byte>, rest: seq<byte>)
    requires s == nick + afterNick && afterNick == name + afterName
    requires afterName != [] && afterName[0] == '@' && afterName[1..] == host + rest
    ensures s == nick + name + At + host + rest
  {
    assert afterName == At + host + rest;
  }

  /** The middle parameters, then the trailing one if there is one, make a well-formed list. */
  lemma ParamsWellFormed(middle: seq<seq<byte>>, trailing: Option<seq<byte>>)
    requires |middle| <= MaxMiddle && forall i | 0 <= i < |middle| :: IsMiddle(middle[i])
    requires trailing.Some? ==> IsTrailing(trailing.value)
    ensures WellFormedParams(if trailing.Some? then middle + [trailing.value] else middle)
  {
    var params := if trailing.Some? then middle + [trailing.value] else middle;
    assert forall i | 0 <= i < |params| - 1 :: params[i] == middle[i];
    if params != [] && trailing.None? {
      MiddleIsTrailing(params[|params| - 1]);
    }
  }

  /** Nothing that stops a trailing parameter can introduce one. */
  lemma NoTrailingIntro(rest: seq<byte>)
    requires rest == [] || !InClass(rest[0], Trailing)
    ensures TrailingIntro(rest) == []
  {
    if |rest| >= 2 {
      assert rest[..2][0] == rest[0];
    }
  }

  /** What raw_event_parser reads, from what its parts read. */
  lemma EventReadOf(s: seq<byte>, prefix: Option<Prefix>, afterPrefix: seq<byte>, command: seq<byte>,
                    afterCommand: seq<byte>, params: seq<seq<byte>>, tail: seq<byte>)
    requires s == PrefixPart(prefix) + afterPrefix && afterPrefix == command + afterCommand
    requires ParamsParser(afterCommand) == Success(params, tail)
    requires |tail| >= 2 && tail[..2] == CRLF
    ensures var ev := RawEvent(prefix, command, params);
      (s == EventWritten(ev, false) + tail[2..] && ReadsBack(params, false))
      || (s == EventWritten(ev, true) + tail[2..] && ReadsBack(params, true))
    ensures IsSuffix(CRLF + tail[2..], s)
  {
    var colon := !ParamsRead(afterCommand, params, false, tail);
    var rest := tail[2..];
    var ev := RawEvent(prefix, command, params);
    ParamsLineRead(afterCommand, params, tail);
    CrlfHead(tail);
    EventConsumed(s, prefix, afterPrefix, command, afterCommand, params, colon, rest);
    assert s == EventWritten(ev, colon) + rest && ReadsBack(params, colon);
    var front := PrefixPart(prefix) + command + ParamsWritten(params, colon);
    assert EventWritten(ev, colon) == front + CRLF;
    Assoc(front, CRLF, rest);
    SuffixOfConcat(front, CRLF + rest);
  }

  /** The parameters of a line: written with the introducer choice that reads back whole. */
  lemma ParamsLineRead(afterCommand: seq<byte>, params: seq<seq<byte>>, tail: seq<byte>)
    requires ParamsParser(afterCommand) == Success(params, tail)
    ensures var colon := !ParamsRead(afterCommand, params, false, tail);
      afterCommand == ParamsWritten(params, colon) + tail && ReadsBack(params, colon)
  {
  }

  /** What params_parser reads, from what its two halves read. */
  lemma ParamsReadOf(s: seq<byte>, middle: seq<seq<byte>>, afterMiddle: seq<byte>,
                     trailing: Option<seq<byte>>, rest: seq<byte>)
    requires MiddleParamsParser(s) == Success(middle, afterMiddle)
    requires TrailingParamParser(afterMiddle) == Success(trailing, rest)
    ensures var ps := if trailing.Some? then middle + [trailing.value] else middle;
      (ParamsRead(s, ps, false, rest) || ParamsRead(s, ps, true, rest))
      && (|ps| < MaxMiddle ==> MiddleParam(rest).Failure?)
  {
    if trailing.None? {
      MiddleOnlyRead(s, middle, rest);
    } else {
      TrailingRead(s, middle, afterMiddle, trailing.value, rest);
    }
  }

  /** No trailing parameter: the middle ones, written with plain spaces, read back whole. */
  lemma MiddleOnlyRead(s: seq<byte>, middle: seq<seq<byte>>, rest: seq<byte>)
    requires MiddleParamsParser(s) == Success(middle, rest)
    ensures ParamsRead(s, middle, false, rest)
  {
    if middle != [] {
      MiddleWritten(middle);
    }
  }

  /** A trailing parameter `t` after the middle ones: the list read back whole, with the introducer found. */
  lemma TrailingRead(s: seq<byte>, middle: seq<seq<byte>>, afterMiddle: seq<byte>, t: seq<byte>, rest: seq<byte>)
    requires MiddleParamsParser(s) == Success(middle, afterMiddle)
    requires TrailingParamParser(afterMiddle) == Success(Some(t), rest)
    ensures ParamsRead(s, middle + [t], TrailingIntro(afterMiddle) == SpaceColon, rest)
    ensures MiddleParam(rest).Failure?
  {
    var intro := TrailingIntro(afterMiddle);
    var colon := intro == SpaceColon;
    var ps := middle + [t];
    assert afterMiddle == intro + t + rest;
    assert ps[..|ps| - 1] == middle && ps[|ps| - 1] == t;
    assert s == ParamsWritten(ps, colon) + rest by {
      TrailingWritten(middle, t, colon, rest);
    }
    assert LastStops(ps, colon, rest) && MiddleParam(rest).Failure? by {
      TrailingStopsMiddle(rest);
    }
    assert ReadsBack(ps, colon) by {
      if !colon {
        BareIntroRead(middle, afterMiddle, t, rest);
      }
    }
  }

  /** After a plain space, the trailing parameter is one that reads back whole. */
  lemma BareIntroRead(middle: seq<seq<byte>>, afterMiddle: seq<byte>, t: seq<byte>, rest: seq<byte>)
    requires |middle| <= MaxMiddle && (|middle| < MaxMiddle ==> MiddleParam(afterMiddle).Failure?)
    requires TrailingParamParser(afterMiddle) == Success(Some(t), rest)
    requires TrailingIntro(afterMiddle) == Space
    ensures BareLastReads(middle + [t])
  {
    var ps := middle + [t];
    assert ps[|ps| - 1] == t;
    assert afterMiddle == Space + t + rest;
    assert afterMiddle[1] == t[0];
    if |middle| < MaxMiddle && t[0] != ' ' {
      BareTrailingIsMiddle(t, rest);
    }
  }

  /** A byte that stops a trailing parameter stops a middle one, and is no space. */
  lemma TrailingStopsMiddle(rest: seq<byte>)
    requires rest == [] || !InClass(rest[0], Trailing)
    ensures StopsMiddle(rest) && (rest == [] || rest[0] != ' ')
    ensures MiddleParam(rest).Failure?
  {
  }

  /**
   * After a plain space, a trailing parameter that starts with neither a space nor a colon
   * is read as a middle parameter (its run up to the first space or colon): cutting valid
   * UTF-8 before such a byte leaves valid UTF-8.
   */
  lemma BareTrailingIsMiddle(t: seq<byte>, rest: seq<byte>)
    requires IsTrailing(t) && t[0] != ':' && t[0] != ' ' && (rest == [] || !InClass(rest[0], Trailing))
    ensures MiddleParam(Space + t + rest).Success?
  {
    var u := t + rest;
    var w := TakeWhile(u, Middle).value;
    MiddleRunOfTrailing(t, rest);
    CutBeforeAscii(t, |w|);
    assert InClass(t[0], Middle);
    assert (Space + t + rest)[1..] == u;
  }

  /** The middle run of a trailing parameter and what follows it ends inside the parameter, before a space or colon. */
  lemma MiddleRunOfTrailing(t: seq<byte>, rest: seq<byte>)
    requires AllIn(t, Trailing) && (rest == [] || !InClass(rest[0], Trailing))
    ensures var w := TakeWhile(t + rest, Middle).value;
      |w| <= |t| && w == t[..|w|] && (|w| < |t| ==> t[|w|] as int < 0x80)
  {
    var u := t + rest;
    var w := TakeWhile(u, Middle).value;
    if |w| > |t| {
      assert w[|t|] == rest[0];
      MiddleIsTrailingByte(rest[0]);
      assert false;
    }
    assert w == t[..|w|] by {
      assert forall i | 0 <= i < |w| :: w[i] == u[i] == t[i];
    }
    if |w| < |t| {
      assert u[|w|] == t[|w|];
      NonMiddleTrailingByte(t[|w|]);
    }
  }

  lemma MiddleIsTrailingByte(c: byte)
    ensures InClass(c, Middle) ==> InClass(c, Trailing)
  {
  }

  /** The bytes a trailing parameter may hold and a middle one may not: space and colon. */
  lemma NonMiddleTrailingByte(c: byte)
    requires InClass(c, Trailing) && !InClass(c, Middle)
    ensures c == ' ' || c == ':'
    ensures c as int < 0x80
  {
  }

  /** A list whose last entry came after " :" (or a space) is written as the list with that introducer. */
  lemma TrailingWritten(middle: seq<seq<byte>>, last: seq<byte>, colon: bool, rest: seq<byte>)
    ensures ParamsWritten(middle + [last], colon) + rest
         == MiddleText(middle) + ((if colon then SpaceColon else Space) + last + rest)
  {
    var ps := middle + [last];
    assert ps[..|ps| - 1] == middle && ps[|ps| - 1] == last;
  }

  /** A list of middle parameters only is written with a plain space before its last entry. */
  lemma MiddleWritten(middle: seq<seq<byte>>)
    requires middle != []
    ensures ParamsWritten(middle, false) == MiddleText(middle)
  {
    var init := middle[..|middle| - 1];
    assert init + [middle[|middle| - 1]] == middle;
    MiddleTextSnoc(init, middle[|middle| - 1]);
  }

  /** What raw_event_parser consumes, from what its parts consumed. */
  lemma EventConsumed(s: seq<byte>, prefix: Option<Prefix>, afterPrefix: seq<byte>, command: seq<byte>,
                      afterCommand: seq<byte>, params: seq<seq<byte>>, colon: bool, rest: seq<byte>)
    requires s == PrefixPart(prefix) + afterPrefix && afterPrefix == command + afterCommand
    ensures afterCommand == ParamsWritten(params, colon) + (CRLF + rest) ==>
      s == EventWritten(RawEvent(prefix, command, params), colon) + rest
  {
    var pp, pw := PrefixPart(prefix), ParamsWritten(params, colon);
    assert EventWritten(RawEvent(prefix, command, params), colon) == pp + command + pw + CRLF;
    if afterCommand == pw + (CRLF + rest) {
      assert s == pp + (command + (pw + (CRLF + rest)));
      assert pp + (command + (pw + (CRLF + rest))) == pp + command + pw + CRLF + rest;
    }
  }

  /** `s` is the one-byte `a` followed by the rest of `s`. */
  lemma LeadingByte(s: seq<byte>, a: seq<byte>)
    requires |a| == 1 && s != [] && s[0] == a[0]
    ensures s == a + s[1..]
  {
  }

  lemma SuffixOfConcat(a: seq<byte>, b: seq<byte>)
    ensures IsSuffix(b, a + b)
  {
  }

  lemma CrlfSuffix(tail: seq<byte>, s: seq<byte>)
    requires IsSuffix(tail, s) && |tail| >= 2 && tail[..2] == CRLF
    ensures IsSuffix(CRLF + tail[2..], s)
  {
    assert tail == tail[..2] + tail[2..];
  }

  lemma CrlfHead(tail: seq<byte>)
    requires |tail| >= 2 && tail[..2] == CRLF
    ensures tail == CRLF + tail[2..]
  {
    assert tail == tail[..2] + tail[2..];
  }

  lemma SuffixTransitive(u: seq<byte>, t: seq<byte>, s: seq<byte>)
    requires IsSuffix(u, t) && IsSuffix(t, s)
    ensures IsSuffix(u, s)
  {
    assert s[|s| - |u|..] == s[|s| - |t|..][|t| - |u|..];
  }
}
