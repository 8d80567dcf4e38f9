/**
 * The command-line parser (`Source/Core/CommandLine.cpp`): one pass over the
 * characters splits `-key` and `-key=value` tokens into a key to value map.
 * Parameter names are kept as the strings themselves.
 */
module CommandLine {
  import opened Common

  /** How a parse can go wrong: `substr` at position -1 throws, and a value
      that is empty has no `front()`. */
  datatype Failure = SubstrOutOfRange | FrontOfEmpty

  datatype Result<T> = Ok(value: T) | Err(error: Failure)

  /** The parser's loop variables and the parameters stored so far. */
  datatype Scan = Scan(Quoted: bool, CommandStart: int, HasValue: bool, Identifier: string, Params: map<string, string>)

  const Init := Scan(false, 0, false, "", map[])

  /** `done.substr(start)` where `done` is the text before the current
      character: a start of -1 is far past the end and throws. */
  function Substr(done: string, start: int): (r: Result<string>)
    ensures r.Ok? <==> 0 <= start <= |done|
    ensures r.Ok? ==> r.value == done[start..]
  {
    if 0 <= start <= |done| then Ok(done[start..]) else Err(SubstrOutOfRange)
  }

  /** A value with one pair of enclosing quotes removed; a lone quote becomes
      empty, and an empty value has no first character to test. */
  function Unquote(value: string): (r: Result<string>)
    ensures r.Err? <==> value == []
    ensures r.Ok? && |value| >= 2 && value[0] == '"' && value[|value| - 1] == '"' ==> r.value == value[1..|value| - 1]
    ensures r.Ok? && !(value[0] == '"' && value[|value| - 1] == '"') ==> r.value == value
  {
    if value == [] then Err(FrontOfEmpty)
    else if value[0] == '"' && value[|value| - 1] == '"' then Ok(if |value| >= 2 then value[1..|value| - 1] else [])
    else Ok(value)
  }

  /** Ends a token whose text is `text`: a value is stored under the
      identifier, a bare token is stored with "1"; no token is open after. */
  function Store(st: Scan, text: string): Result<Scan> {
    if st.HasValue then
      match Unquote(text)
      case Err(f) => Err(f)
      case Ok(v) => Ok(st.(Params := st.Params[st.Identifier := v], HasValue := false, CommandStart := -1))
    else
      Ok(st.(Params := st.Params[text := "1"], CommandStart := -1))
  }

  /** One character `c` at position `|done|`. */
  function StepChar(st: Scan, done: string, c: char): Result<Scan> {
    if c == '"' then Ok(st.(Quoted := !st.Quoted))
    else if c == '-' && !st.Quoted then Ok(st.(CommandStart := |done| + 1))
    else if c == '=' && !st.Quoted then
      match Substr(done, st.CommandStart)
      case Err(f) => Err(f)
      case Ok(id) => Ok(st.(Identifier := id, CommandStart := |done| + 1, HasValue := true))
    else if c == ' ' && !st.Quoted then
      match Substr(done, st.CommandStart)
      case Err(f) => Err(f)
      case Ok(text) => Store(st, text)
    else Ok(st)
  }

  /** The characters of `rest` scanned after those of `done`. */
  function Run(r: Result<Scan>, done: string, rest: string): Result<Scan>
    decreases |rest|
  {
    if rest == [] || r.Err? then r
    else Run(StepChar(r.value, done, rest[0]), done + [rest[0]], rest[1..])
  }

  /** After the last character a token still open is stored. */
  function Finish(st: Scan, line: string): Result<Scan> {
    if st.CommandStart > -1 then
      match Substr(line, st.CommandStart)
      case Err(f) => Err(f)
      case Ok(text) => Store(st, text)
    else Ok(st)
  }

  /** `Parse` on `line`: the parameters it leaves, or how it fails. */
  function ParseLine(line: string): Result<map<string, string>> {
    match Run(Ok(Init), [], line)
    case Err(f) => Err(f)
    case Ok(st) =>
      match Finish(st, line)
      case Err(f) => Err(f)
      case Ok(end) => Ok(end.Params)
  }

  lemma {:induction false} RunAppend(r: Result<Scan>, done: string, a: string, b: string)
    ensures Run(r, done, a + b) == Run(Run(r, done, a), done + a, b)
    decreases |a|
  {
    if a == [] {
      assert a + b == b && done + a == done;
    } else if r.Err? {
      RunStaysFailed(r, done + a, b);
    } else {
      assert (a + b)[0] == a[0] && (a + b)[1..] == a[1..] + b;
      assert done + [a[0]] + a[1..] == done + a;
      RunAppend(StepChar(r.value, done, a[0]), done + [a[0]], a[1..], b);
    }
  }

  lemma {:induction false} RunStaysFailed(r: Result<Scan>, done: string, rest: string)
    requires r.Err?
    ensures Run(r, done, rest) == r
  {}

  // ---------------------------------------------------------------------
  // Rendering parameters and parsing them back

  /** A character with no meaning to the tokenizer. */
  predicate Plain(c: char) {
    c != '"' && c != '-' && c != '=' && c != ' '
  }

  /** A non-empty word of plain characters. */
  predicate Word(s: string) {
    |s| > 0 && forall i :: 0 <= i < |s| ==> Plain(s[i])
  }

  /** `-key` or `-key=value`. */
  datatype Token = Token(Key: string, Value: Option<string>)

  predicate WellFormed(t: Token) {
    Word(t.Key) && (t.Value.Some? ==> Word(t.Value.value))
  }

  function RenderToken(t: Token): string {
    "-" + t.Key + (if t.Value.Some? then "=" + t.Value.value else "")
  }

  /** Tokens joined by single spaces. */
  function Render(ts: seq<Token>): string
    requires |ts| > 0
  {
    if |ts| == 1 then RenderToken(ts[0]) else RenderToken(ts[0]) + " " + Render(ts[1..])
  }

  /** The tokens stored left to right, "1" for a bare key. */
  function Apply(m: map<string, string>, ts: seq<Token>): map<string, string>
    decreases |ts|
  {
    if ts == [] then m
    else Apply(m[ts[0].Key := ts[0].Value.GetOr("1")], ts[1..])
  }

  /** Plain characters change nothing. */
  lemma {:induction false} RunPlain(st: Scan, done: string, p: string)
    requires forall i :: 0 <= i < |p| ==> Plain(p[i])
    ensures Run(Ok(st), done, p) == Ok(st)
    decreases |p|
  {
    if p != [] {
      RunPlain(st, done + [p[0]], p[1..]);
    }
  }

  /** Between tokens: not quoted and no value pending. */
  predicate Idle(st: Scan) {
    !st.Quoted && !st.HasValue
  }

  /** Scanning one rendered token leaves it open with its text pending. */
  lemma TokenOpen(st: Scan, done: string, t: Token)
    requires Idle(st) && WellFormed(t)
    ensures var r := Run(Ok(st), done, RenderToken(t));
            r.Ok? && !r.value.Quoted && r.value.Params == st.Params
            && r.value.HasValue == t.Value.Some?
            && r.value.CommandStart == (if t.Value.Some? then |done| + |t.Key| + 2 else |done| + 1)
            && (t.Value.Some? ==> r.value.Identifier == t.Key)
            && 0 <= r.value.CommandStart <= |done + RenderToken(t)|
            && (done + RenderToken(t))[r.value.CommandStart..] == t.Value.GetOr(t.Key)
  {
    if t.Value.Some? {
      ValuedTokenOpen(st, done, t.Key, t.Value.value);
      ValueAfterEquals(done, t.Key, t.Value.value);
      assert RenderToken(t) == "-" + t.Key + "=" + t.Value.value;
    } else {
      KeyOpen(st, done, t.Key);
      assert RenderToken(t) == "-" + t.Key;
      assert (done + RenderToken(t))[|done| + 1..] == t.Key;
    }
  }

  /** Scanning `-key=v` leaves the key as the identifier and `v` pending. */
  lemma ValuedTokenOpen(st: Scan, done: string, key: string, v: string)
    requires Idle(st) && Word(key) && Word(v)
    ensures var d2 := done + "-" + key;
            Run(Ok(st), done, "-" + key + "=" + v) == Ok(st.(Identifier := key, CommandStart := |d2| + 1, HasValue := true))
  {
    var head, tail := "-" + key, "=" + v;
    KeyOpen(st, done, key);
    ValueOpen(st.(CommandStart := |done| + 1), done, key, v);
    RunAppend(Ok(st), done, head, tail);
    assert head + tail == "-" + key + "=" + v;
    assert done + head == done + "-" + key;
  }

  /** The value of a rendered `-key=v` starts just after the equals sign. */
  lemma ValueAfterEquals(done: string, key: string, v: string)
    ensures (done + ("-" + key + "=" + v))[|done + "-" + key| + 1..] == v
  {
    assert done + ("-" + key + "=" + v) == (done + "-" + key + "=") + v;
  }

  /** A dash opens a token; the plain key after it changes nothing. */
  lemma KeyOpen(st: Scan, done: string, key: string)
    requires Idle(st) && Word(key)
    ensures Run(Ok(st), done, "-" + key) == Ok(st.(CommandStart := |done| + 1))
  {
    var s1 := st.(CommandStart := |done| + 1);
    assert Run(Ok(st), done, "-") == Ok(s1);
    RunPlain(s1, done + "-", key);
    RunAppend(Ok(st), done, "-", key);
  }

  /** After `-key`, an equals sign takes the key as the identifier and the
      plain value after it changes nothing. */
  lemma ValueOpen(s1: Scan, done: string, key: string, v: string)
    requires !s1.Quoted && s1.CommandStart == |done| + 1 && Word(v)
    ensures var d2 := done + "-" + key;
            Run(Ok(s1), d2, "=" + v) == Ok(s1.(Identifier := key, CommandStart := |d2| + 1, HasValue := true))
  {
    var d2 := done + "-" + key;
    var s2 := s1.(Identifier := key, CommandStart := |d2| + 1, HasValue := true);
    assert d2[|done| + 1..] == key;
    assert Run(Ok(s1), d2, "=") == Ok(s2);
    RunPlain(s2, d2 + "=", v);
    RunAppend(Ok(s1), d2, "=", v);
  }

  /** Storing an open rendered token stores its key and value. */
  lemma StoreToken(st: Scan, t: Token, text: string)
    requires WellFormed(t) && st.HasValue == t.Value.Some? && (t.Value.Some? ==> st.Identifier == t.Key)
    requires text == t.Value.GetOr(t.Key)
    ensures Store(st, text).Ok?
    ensures var s := Store(st, text).value;
            Idle(s) == !st.Quoted && s.Params == st.Params[t.Key := t.Value.GetOr("1")] && s.CommandStart == -1
  {
    if t.Value.Some? {
      assert text[0] != '"';
    }
  }

  /** Rendered tokens scanned from an idle state, then finished, store
      exactly the tokens in order. */
  lemma {:induction false} ParseRenderedFrom(st: Scan, done: string, ts: seq<Token>)
    requires Idle(st) && |ts| > 0 && forall i :: 0 <= i < |ts| ==> WellFormed(ts[i])
    ensures Run(Ok(st), done, Render(ts)).Ok?
    ensures Finish(Run(Ok(st), done, Render(ts)).value, done + Render(ts)).Ok?
    ensures Finish(Run(Ok(st), done, Render(ts)).value, done + Render(ts)).value.Params == Apply(st.Params, ts)
    decreases |ts|
  {
    var t := ts[0];
    TokenOpen(st, done, t);
    var open := Run(Ok(st), done, RenderToken(t)).value;
    var d1 := done + RenderToken(t);
    if |ts| == 1 {
      StoreToken(open, t, d1[open.CommandStart..]);
      assert Apply(st.Params, ts) == Apply(st.Params[t.Key := t.Value.GetOr("1")], []);
    } else {
      StoreToken(open, t, d1[open.CommandStart..]);
      var closed := Store(open, d1[open.CommandStart..]).value;
      assert Run(Ok(open), d1, " ") == Ok(closed);
      RunAppend(Ok(st), done, RenderToken(t), " ");
      var rest := Render(ts[1..]);
      RunAppend(Ok(st), done, RenderToken(t) + " ", rest);
      assert RenderToken(t) + " " + rest == Render(ts);
      assert done + (RenderToken(t) + " ") == d1 + " ";
      assert d1 + " " + rest == done + Render(ts);
      assert Run(Ok(st), done, Render(ts)) == Run(Ok(closed), d1 + " ", rest);
      ParseRenderedFrom(closed, d1 + " ", ts[1..]);
    }
  }

  /** Parsing rendered tokens gives the tokens stored in order: the last
      occurrence of a key wins, and a bare key holds "1". */
  lemma ParseRendered(ts: seq<Token>)
    requires |ts| > 0 && forall i :: 0 <= i < |ts| ==> WellFormed(ts[i])
    ensures ParseLine(Render(ts)) == Ok(Apply(map[], ts))
  {
    var line := Render(ts);
    ParseRenderedFrom(Init, [], ts);
    assert [] + line == line;
    var scanned := Run(Ok(Init), [], line);
    assert scanned.Ok?;
    var finished := Finish(scanned.value, line);
    assert finished.Ok? && finished.value.Params == Apply(map[], ts);
  }

  /** The key of the last token for it holds that token's value. */
  lemma {:induction false} ApplyLastWins(m: map<string, string>, ts: seq<Token>, i: nat)
    requires i < |ts| && forall j :: i < j < |ts| ==> ts[j].Key != ts[i].Key
    ensures ts[i].Key in Apply(m, ts) && Apply(m, ts)[ts[i].Key] == ts[i].Value.GetOr("1")
    decreases |ts|
  {
    if i == 0 {
      ApplyKeeps(m[ts[0].Key := ts[0].Value.GetOr("1")], ts[1..], ts[0].Key);
    } else {
      ApplyLastWins(m[ts[0].Key := ts[0].Value.GetOr("1")], ts[1..], i - 1);
    }
  }

  /** A key no token names keeps its entry. */
  lemma {:induction false} ApplyKeeps(m: map<string, string>, ts: seq<Token>, key: string)
    requires forall j :: 0 <= j < |ts| ==> ts[j].Key != key
    ensures (key in Apply(m, ts) <==> key in m) && (key in m ==> Apply(m, ts)[key] == m[key])
    decreases |ts|
  {
    if ts != [] {
      ApplyKeeps(m[ts[0].Key := ts[0].Value.GetOr("1")], ts[1..], key);
    }
  }

  // ---------------------------------------------------------------------
  // Unguarded cases

  /** Two spaces in a row: the second takes the text from position -1. */
  lemma DoubleSpaceThrows()
    ensures ParseLine("-a  -b") == Err(SubstrOutOfRange)
  {
    var s1 := Run(Ok(Init), [], "-a ");
    assert Run(Ok(Init), [], "-a  -b") == Run(s1, "-a ", " -b") by {
      RunAppend(Ok(Init), [], "-a ", " -b");
    }
  }

  /** An empty value: its first character is read anyway. */
  lemma EmptyValueFails()
    ensures ParseLine("-a=") == Err(FrontOfEmpty)
  {}

  /** An empty line stores the empty key. */
  lemma EmptyLineStoresEmptyKey()
    ensures ParseLine("") == Ok(map["" := "1"])
  {}

  // ---------------------------------------------------------------------
  // std::stoi

  predicate IsSpace(c: char) {
    c == ' ' || c == '\t' || c == '\n' || c == '\U{000B}' || c == '\U{000C}' || c == '\r'
  }

  predicate IsDigit(c: char) {
    '0' <= c <= '9'
  }

  function SkipSpace(s: string): (r: string)
    ensures |r| <= |s| && (r == [] || !IsSpace(r[0]))
  {
    if s != [] && IsSpace(s[0]) then SkipSpace(s[1..]) else s
  }

  /** The number a string of decimal digits spells. */
  function DigitsValue(d: string): nat
    requires forall i :: 0 <= i < |d| ==> IsDigit(d[i])
  {
    if d == [] then 0
    else
      assert IsDigit(d[|d| - 1]);
      10 * DigitsValue(d[..|d| - 1]) + (d[|d| - 1] as int - '0' as int)
  }

  const IntMin: int := -0x8000_0000
  const IntMax: int := 0x7FFF_FFFF

  /** `std::stoi`: leading white space, an optional sign, then the longest
      run of digits; `None` when there is no digit or the number does not
      fit an `int` (both throw). */
  function StoI(s: string): (r: Option<int>)
    ensures r.Some? ==> IntMin <= r.value <= IntMax
  {
    var t := SkipSpace(s);
    var signed := |t| > 0 && (t[0] == '-' || t[0] == '+');
    var body := if signed then t[1..] else t;
    var n := LeadingCount(body, IsDigit);
    if n == 0 then None
    else
      var magnitude := DigitsValue(body[..n]);
      var v: int := if signed && t[0] == '-' then -(magnitude as int) else magnitude;
      if IntMin <= v <= IntMax then Some(v) else None
  }

  /** Decimal digits of `n`, most significant first. */
  function NatDigits(n: nat): (d: string)
    ensures |d| > 0 && forall i :: 0 <= i < |d| ==> IsDigit(d[i])
  {
    var last := ['0' + (n % 10) as char];
    if n < 10 then last else NatDigits(n / 10) + last
  }

  function IntToString(n: int): string {
    if n < 0 then "-" + NatDigits(-n) else NatDigits(n)
  }

  lemma {:induction false} DigitsValueOfNatDigits(n: nat)
    ensures DigitsValue(NatDigits(n)) == n
  {
    var d := NatDigits(n);
    if n >= 10 {
      DigitsValueOfNatDigits(n / 10);
      assert d[..|d| - 1] == NatDigits(n / 10);
    }
  }

  /** `stoi` reads back every `int` written in decimal. */
  lemma StoIRoundTrip(n: int)
    requires IntMin <= n <= IntMax
    ensures StoI(IntToString(n)) == Some(n)
  {
    var s := IntToString(n);
    var m: nat := if n < 0 then -n else n;
    var digits := NatDigits(m);
    assert SkipSpace(s) == s;
    var body := if n < 0 then s[1..] else s;
    assert body == digits;
    DigitsRead(m);
  }

  /** The digits of `m` are all read, and spell `m`. */
  lemma DigitsRead(m: nat)
    ensures var d := NatDigits(m);
            LeadingCount(d, IsDigit) == |d| && DigitsValue(d[..|d|]) == m
  {
    var d := NatDigits(m);
    LeadingCountExact(d, IsDigit, |d|);
    assert d[..|d|] == d;
    DigitsValueOfNatDigits(m);
  }

  /** `CommandLine`: the last line parsed and its parameters. */
  class CommandLine {
    var Line: string
    var Parameters: map<string, string>

    constructor()
      ensures Line == [] && Parameters == map[]
    {
      Line := [];
      Parameters := map[];
    }

    /** `Parse`: returns true when the line parsed; the previous parameters
        are discarded. `false` stands for the exception or undefined
        behaviour of the unguarded cases. */
    method Parse(line: string) returns (parsed: bool)
      modifies this
      ensures Line == line
      ensures parsed <==> ParseLine(line).Ok?
      ensures parsed ==> Parameters == ParseLine(line).value
    {
      Line := line;
      Parameters := map[];
      var quoted := false;
      var commandStart: int := 0;
      var hasValue := false;
      var identifier: string := [];
      for i := 0 to |line|
        invariant commandStart <= i
        invariant Run(Ok(Init), [], line)
                  == Run(Ok(Scan(quoted, commandStart, hasValue, identifier, Parameters)), line[..i], line[i..])
        invariant Line == line
      {
        ghost var st := Scan(quoted, commandStart, hasValue, identifier, Parameters);
        assert line[i..][0] == line[i] && line[i..][1..] == line[i + 1..] && line[..i] + [line[i]] == line[..i + 1];
        var c := line[i];
        if c == '"' {
          quoted := !quoted;
        } else if c == '-' && !quoted {
          commandStart := i + 1;
        } else if c == '=' && !quoted {
          if commandStart < 0 {
            RunStaysFailed(Err(SubstrOutOfRange), line[..i + 1], line[i + 1..]);
            return false;
          }
          identifier := line[commandStart..i];
          commandStart := i + 1;
          hasValue := true;
        } else if c == ' ' && !quoted {
          if commandStart < 0 {
            RunStaysFailed(Err(SubstrOutOfRange), line[..i + 1], line[i + 1..]);
            return false;
          }
          var text := line[commandStart..i];
          assert text == line[..i][commandStart..];
          var stored, params := EndToken(hasValue, identifier, Parameters, text);
          if !stored {
            RunStaysFailed(Err(FrontOfEmpty), line[..i + 1], line[i + 1..]);
            return false;
          }
          Parameters := params;
          hasValue := false;
          commandStart := -1;
        }
        assert StepChar(st, line[..i], c) == Ok(Scan(quoted, commandStart, hasValue, identifier, Parameters));
      }
      assert line[..|line|] == line;
      if commandStart > -1 {
        var text := line[commandStart..];
        var stored, params := EndToken(hasValue, identifier, Parameters, text);
        if !stored {
          return false;
        }
        Parameters := params;
        hasValue := false;
        commandStart := -1;
      }
      parsed := true;
    }

    /** Ends a token whose text is `text`: a value, with one pair of
        enclosing quotes removed, goes under the identifier, a bare token
        is stored with "1"; an empty value has no first character and
        fails. */
    static method EndToken(hasValue: bool, identifier: string, params0: map<string, string>, text: string)
      returns (stored: bool, params: map<string, string>)
      ensures stored <==> Store(Scan(false, 0, hasValue, identifier, params0), text).Ok?
      ensures stored ==> params == Store(Scan(false, 0, hasValue, identifier, params0), text).value.Params
    {
      params := params0;
      if hasValue {
        if text == [] {
          return false, params;
        }
        var value := text;
        if value[0] == '"' && value[|value| - 1] == '"' {
          value := if |value| >= 2 then value[1..|value| - 1] else [];
        }
        params := params[identifier := value];
      } else {
        params := params[text := "1"];
      }
      stored := true;
    }

    /** `GetValue`: the value stored for `name`, if any. */
    function GetValue(name: string): (r: Option<string>)
      reads this
      ensures r.Some? <==> name in Parameters
      ensures r.Some? ==> r.value == Parameters[name]
    {
      if name in Parameters then Some(Parameters[name]) else None
    }

    /** `GetBool`: whether `name` was given, whatever its value. */
    function GetBool(name: string): (r: bool)
      reads this
      ensures r <==> name in Parameters
    {
      GetValue(name).Some?
    }

    /** `GetInt`: the value read by `stoi` and true, or `defaultValue` and
        false for an absent key; `None` when `stoi` throws. */
    function GetInt(name: string, defaultValue: int): (r: Option<(int, bool)>)
      reads this
      ensures name !in Parameters ==> r == Some((defaultValue, false))
      ensures name in Parameters ==> r == (match StoI(Parameters[name]) case None => None case Some(v) => Some((v, true)))
    {
      match GetValue(name)
      case None => Some((defaultValue, false))
      case Some(text) =>
        match StoI(text)
        case None => None
        case Some(v) => Some((v, true))
    }
  }
}
