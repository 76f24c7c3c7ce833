/** Messages received from the simulator: `$`-separated fields, the first one an
    integer identifier (pcog/messages.py). */
module Messages {
  import opened Wrappers

  // MessageType codes
  const Exit: int := -1
  const PositionUpdate: int := 0
  const HealthUpdate: int := 1
  const EntityWaterSource: int := 2
  const EntityPredator: int := 3
  const EntityPrey: int := 4
  const WorldEntity: int := 15
  const NewPerceivedAgent: int := 5
  const RemovePerceivedAgent: int := 6
  const StaminaUpdate: int := 7
  const HungerUpdate: int := 8
  const ThirstUpdate: int := 9
  const InventoryUpdate: int := 10
  const ItemEdible: int := 11
  const NonEdibleItem: int := 12
  const SoundHeard: int := 13
  const DamageTaken: int := 14
  const FacingDirectionUpdate: int := 16
  const Reinforcement: int := 17
  const Restart: int := 18
  const TemperatureUpdate: int := 19
  const Noop: int := 1000

  /** Every message type code, in declaration order; no two types share a code. */
  function MessageTypeCodes(): (r: seq<int>)
    ensures |r| == 22
    ensures forall i, j :: 0 <= i < j < |r| ==> r[i] != r[j]
  {
    [Exit, PositionUpdate, HealthUpdate, EntityWaterSource, EntityPredator, EntityPrey,
     WorldEntity, NewPerceivedAgent, RemovePerceivedAgent, StaminaUpdate, HungerUpdate,
     ThirstUpdate, InventoryUpdate, ItemEdible, NonEdibleItem, SoundHeard, DamageTaken,
     FacingDirectionUpdate, Reinforcement, Restart, TemperatureUpdate, Noop]
  }

  // ---------------------------------------------------------------------------
  // str.split("$")

  const Separator: char := '$'

  /** The pieces of `s` between separators, as `s.split("$")` returns them. */
  function Split(s: string): (r: seq<string>)
    ensures |r| >= 1
    decreases |s|
  {
    if s == [] then [""]
    else
      var rest := Split(s[1..]);
      if s[0] == Separator then [""] + rest
      else [[s[0]] + rest[0]] + rest[1..]
  }

  /** `"$".join(pieces)` */
  function Join(pieces: seq<string>): string
    requires |pieces| >= 1
    decreases |pieces|
  {
    if |pieces| == 1 then pieces[0] else pieces[0] + [Separator] + Join(pieces[1..])
  }

  function CountSeparators(s: string): nat
    decreases |s|
  {
    if s == [] then 0 else (if s[0] == Separator then 1 else 0) + CountSeparators(s[1..])
  }

  /** Splitting yields one more piece than there are separators, and no piece holds one. */
  lemma {:induction false} SplitShape(s: string)
    ensures |Split(s)| == CountSeparators(s) + 1
    ensures forall i :: 0 <= i < |Split(s)| ==> Separator !in Split(s)[i]
    decreases |s|
  {
    if s != [] {
      SplitShape(s[1..]);
      var rest := Split(s[1..]);
      if s[0] != Separator {
        assert Split(s) == [[s[0]] + rest[0]] + rest[1..];
        forall i | 0 <= i < |Split(s)| ensures Separator !in Split(s)[i] {
          if i == 0 {
            assert Separator !in rest[0];
          } else {
            assert Split(s)[i] == rest[i];
          }
        }
      } else {
        assert Split(s) == [""] + rest;
        forall i | 0 <= i < |Split(s)| ensures Separator !in Split(s)[i] {
          if i > 0 {
            assert Split(s)[i] == rest[i - 1];
          }
        }
      }
    }
  }

  /** Joining the pieces with the separator gives back the text. */
  lemma {:induction false} JoinSplit(s: string)
    ensures Join(Split(s)) == s
    decreases |s|
  {
    if s != [] {
      JoinSplit(s[1..]);
      var rest := Split(s[1..]);
      if s[0] == Separator {
        assert Split(s) == [""] + rest;
        assert Split(s)[1..] == rest;
      } else {
        var r := Split(s);
        assert r == [[s[0]] + rest[0]] + rest[1..];
        if |rest| == 1 {
          assert r == [[s[0]] + rest[0]];
        } else {
          assert r[1..] == rest[1..];
          assert Join(rest) == rest[0] + [Separator] + Join(rest[1..]);
        }
      }
    }
  }

  /** Splitting the joined pieces gives back the pieces, when none holds a separator. */
  lemma {:induction false} SplitJoin(pieces: seq<string>)
    requires |pieces| >= 1
    requires forall i :: 0 <= i < |pieces| ==> Separator !in pieces[i]
    ensures Split(Join(pieces)) == pieces
    decreases |pieces|, |pieces[0]|
  {
    if |pieces| == 1 {
      SplitPiece(pieces[0]);
    } else if pieces[0] == [] {
      SplitJoin(pieces[1..]);
      assert Join(pieces) == [Separator] + Join(pieces[1..]);
      SplitSeparator(Join(pieces[1..]));
      assert [pieces[0]] + pieces[1..] == pieces;
    } else {
      var c := pieces[0][0];
      var tail := [pieces[0][1..]] + pieces[1..];
      TailWithoutSeparator(pieces);
      SplitJoin(tail);
      JoinHead(pieces);
      SplitCons(c, Join(tail));
      assert [c] + tail[0] == pieces[0];
      assert tail[1..] == pieces[1..];
      assert [pieces[0]] + pieces[1..] == pieces;
    }
  }

  /** A leading separator starts an empty first piece. */
  lemma SplitSeparator(s: string)
    ensures Split([Separator] + s) == [""] + Split(s)
  {
    assert ([Separator] + s)[1..] == s;
  }

  /** A leading character other than the separator joins the first piece. */
  lemma SplitCons(c: char, s: string)
    requires c != Separator
    ensures Split([c] + s) == [[c] + Split(s)[0]] + Split(s)[1..]
  {
    assert ([c] + s)[1..] == s;
  }

  /** Joining pieces whose first one is not empty starts with that piece's
      first character, followed by the join of the rest. */
  lemma JoinHead(pieces: seq<string>)
    requires |pieces| >= 1 && pieces[0] != []
    ensures Join(pieces) == [pieces[0][0]] + Join([pieces[0][1..]] + pieces[1..])
  {
    var p0 := pieces[0];
    var tail := [p0[1..]] + pieces[1..];
    assert [p0[0]] + p0[1..] == p0;
    if |pieces| == 1 {
      assert |tail| == 1 && Join(tail) == p0[1..];
    } else {
      assert |tail| > 1 && tail[0] == p0[1..] && tail[1..] == pieces[1..];
      var j := Join(pieces[1..]);
      assert Join(tail) == p0[1..] + [Separator] + j;
      assert Join(pieces) == p0 + [Separator] + j;
    }
  }

  /** Dropping the first character keeps every piece free of separators. */
  lemma TailWithoutSeparator(pieces: seq<string>)
    requires |pieces| >= 1 && pieces[0] != []
    requires forall i :: 0 <= i < |pieces| ==> Separator !in pieces[i]
    ensures forall i :: 0 <= i < |[pieces[0][1..]] + pieces[1..]| ==> Separator !in ([pieces[0][1..]] + pieces[1..])[i]
  {
    var tail := [pieces[0][1..]] + pieces[1..];
    forall i | 0 <= i < |tail| ensures Separator !in tail[i] {
      if i == 0 {
        assert forall c :: c in pieces[0][1..] ==> c in pieces[0];
      } else {
        assert tail[i] == pieces[i];
      }
    }
  }

  lemma {:induction false} SplitPiece(s: string)
    requires Separator !in s
    ensures Split(s) == [s]
    decreases |s|
  {
    if s != [] {
      assert forall c :: c in s[1..] ==> c in s;
      SplitPiece(s[1..]);
      assert [s[0]] + s[1..] == s;
    }
  }

  // ---------------------------------------------------------------------------
  // str.strip() (Python 2 byte strings: ASCII whitespace)

  predicate IsSpace(c: char) {
    c == ' ' || c == '\t' || c == '\n' || c == '\r' || c == '\U{000B}' || c == '\U{000C}'
  }

  function StripLeft(s: string): (r: string)
    decreases |s|
  {
    if s != [] && IsSpace(s[0]) then StripLeft(s[1..]) else s
  }

  function StripRight(s: string): (r: string)
    decreases |s|
  {
    if s != [] && IsSpace(s[|s| - 1]) then StripRight(s[..|s| - 1]) else s
  }

  function Strip(s: string): string {
    StripRight(StripLeft(s))
  }

  predicate AllSpace(s: string) {
    forall k :: 0 <= k < |s| ==> IsSpace(s[k])
  }

  /** `StripLeft` drops exactly the leading whitespace. */
  lemma {:induction false} StripLeftSpec(s: string)
    ensures |StripLeft(s)| <= |s|
    ensures StripLeft(s) == s[|s| - |StripLeft(s)|..]
    ensures AllSpace(s[..|s| - |StripLeft(s)|])
    ensures StripLeft(s) != [] ==> !IsSpace(StripLeft(s)[0])
    decreases |s|
  {
    if s != [] && IsSpace(s[0]) {
      StripLeftSpec(s[1..]);
      var i := |s| - |StripLeft(s)|;
      assert s[1..][i - 1..] == s[i..];
      assert s[..i] == [s[0]] + s[1..][..i - 1];
    }
  }

  /** `StripRight` drops exactly the trailing whitespace. */
  lemma {:induction false} StripRightSpec(s: string)
    ensures |StripRight(s)| <= |s|
    ensures StripRight(s) == s[..|StripRight(s)|]
    ensures AllSpace(s[|StripRight(s)|..])
    ensures StripRight(s) != [] ==> !IsSpace(StripRight(s)[|StripRight(s)| - 1])
    decreases |s|
  {
    if s != [] && IsSpace(s[|s| - 1]) {
      var t := s[..|s| - 1];
      StripRightSpec(t);
      var j := |StripRight(t)|;
      assert t[..j] == s[..j];
      assert s[j..] == t[j..] + [s[|s| - 1]];
    }
  }

  /** `strip()` keeps the contiguous middle part `s[i..j]` of the text, drops only
      whitespace around it, and leaves no whitespace at either end. */
  lemma StripSpec(s: string, i: int, j: int)
    requires i == |s| - |StripLeft(s)| && j == i + |Strip(s)|
    ensures 0 <= i <= j <= |s|
    ensures Strip(s) == s[i..j]
    ensures AllSpace(s[..i]) && AllSpace(s[j..])
    ensures Strip(s) != [] ==> !IsSpace(Strip(s)[0]) && !IsSpace(Strip(s)[|Strip(s)| - 1])
  {
    StripLeftSpec(s);
    var l := StripLeft(s);
    StripRightSpec(l);
    var m := |StripRight(l)|;
    assert l[..m] == s[i..i + m];
    assert l[m..] == s[i + m..];
    if Strip(s) != [] {
      assert Strip(s)[0] == l[0];
    }
  }

  /** Stripping twice is stripping once. */
  lemma StripIdempotent(s: string)
    ensures Strip(Strip(s)) == Strip(s)
  {
    StripSpec(s, |s| - |StripLeft(s)|, |s| - |StripLeft(s)| + |Strip(s)|);
    var t := Strip(s);
    if t != [] {
      assert StripLeft(t) == t;
      assert StripRight(t) == t;
    }
  }

  // ---------------------------------------------------------------------------
  // int(s) on a stripped string (Python 2: optional sign, optional whitespace
  // after the sign, then decimal digits)

  predicate IsDigit(c: char) { '0' <= c <= '9' }

  function DigitValue(c: char): nat
    requires IsDigit(c)
  {
    (c as int) - ('0' as int)
  }

  predicate AllDigits(s: string) {
    forall k :: 0 <= k < |s| ==> IsDigit(s[k])
  }

  /** The value of a run of decimal digits (0 for the empty run). */
  function DigitsValue(s: string): nat
    requires AllDigits(s)
    decreases |s|
  {
    if s == [] then 0 else DigitsValue(s[..|s| - 1]) * 10 + DigitValue(s[|s| - 1])
  }

  /** `int(s)` in Python 2, for an `s` without surrounding whitespace: the
      digits may follow the sign after whitespace, which CPython 2 skips a
      second time once the sign is read. */
  function ParseInt(s: string): (r: Option<int>)
  {
    if |s| > 0 && (s[0] == '-' || s[0] == '+') then
      var body := StripLeft(s[1..]);
      if |body| > 0 && AllDigits(body) then
        var v: int := DigitsValue(body);
        Some(if s[0] == '-' then -v else v)
      else None
    else if |s| > 0 && AllDigits(s) then Some(DigitsValue(s))
    else None
  }

  /** Decimal rendering of a natural number, most significant digit first. */
  function NatDigits(n: nat): (r: string)
    ensures |r| > 0 && AllDigits(r)
    decreases n
  {
    var d := ['0', '1', '2', '3', '4', '5', '6', '7', '8', '9'][n % 10];
    if n < 10 then [d] else NatDigits(n / 10) + [d]
  }

  /** `str(n)` */
  function IntToString(n: int): string {
    if n < 0 then ['-'] + NatDigits(-n) else NatDigits(n)
  }

  lemma {:induction false} DigitsRoundTrip(n: nat)
    ensures DigitsValue(NatDigits(n)) == n
    decreases n
  {
    var r := NatDigits(n);
    if n >= 10 {
      DigitsRoundTrip(n / 10);
      assert r[..|r| - 1] == NatDigits(n / 10);
    }
  }

  /** Parsing what `str` renders gives back the integer. */
  lemma ParseIntRoundTrip(n: int)
    ensures ParseInt(IntToString(n)) == Some(n)
  {
    var s := IntToString(n);
    if n < 0 {
      var d := NatDigits(-n);
      DigitsRoundTrip(-n);
      assert s == ['-'] + d;
      assert s[1..] == d;
      assert StripLeft(d) == d by { assert !IsSpace(d[0]); }
      assert s[0] == '-';
      assert !AllDigits(s) by { assert !IsDigit(s[0]); }
    } else {
      DigitsRoundTrip(n);
      assert IsDigit(s[0]);
    }
  }

  /** What `int` accepts: a sign only in front, possibly followed by
      whitespace, and at least one digit. */
  lemma ParseIntAccepts(s: string)
    ensures ParseInt(s).Some? <==>
      || (|s| > 0 && AllDigits(s))
      || (|s| > 1 && (s[0] == '-' || s[0] == '+')
          && exists k :: 1 <= k < |s| && AllSpace(s[1..k]) && AllDigits(s[k..]))
  {
    if |s| > 1 && (s[0] == '-' || s[0] == '+') {
      var t := s[1..];
      StripLeftSpec(t);
      var body := StripLeft(t);
      var k := 1 + |t| - |body|;
      assert t[..k - 1] == s[1..k] && t[k - 1..] == s[k..];
      if ParseInt(s).Some? {
        assert 1 <= k < |s| && AllSpace(s[1..k]) && AllDigits(s[k..]);
      }
      if exists k' :: 1 <= k' < |s| && AllSpace(s[1..k']) && AllDigits(s[k'..]) {
        var k' :| 1 <= k' < |s| && AllSpace(s[1..k']) && AllDigits(s[k'..]);
        assert t == s[1..k'] + s[k'..];
        StripLeftSpaces(s[1..k'], s[k'..]);
      }
    }
  }

  /** Leading whitespace in front of text that does not start with
      whitespace is exactly what `StripLeft` drops. */
  lemma {:induction false} StripLeftSpaces(a: string, b: string)
    requires AllSpace(a) && (b == [] || !IsSpace(b[0]))
    ensures StripLeft(a + b) == b
    decreases |a|
  {
    if a != [] {
      assert (a + b)[1..] == a[1..] + b;
      StripLeftSpaces(a[1..], b);
    } else {
      assert a + b == b;
    }
  }

  /** A space between the sign and the digits is accepted: `int("- 5") == -5`. */
  lemma ParseIntSignSpace()
    ensures ParseInt("- 5") == Some(-5)
  {
    assert StripLeft(" 5") == "5" by {
      assert " 5"[1..] == "5";
    }
    assert DigitsValue("5") == 5 by {
      assert "5"[..0] == [];
    }
  }

  // ---------------------------------------------------------------------------
  // Message

  /** A parsed message: its stripped fields and its integer identifier. */
  datatype Message = Message(raw: seq<string>, id: int)

  /** `Message.parse_message`: split on `$` and strip every piece, in order. */
  method ParseMessage(text: string) returns (parsed: seq<string>)
    ensures |parsed| == |Split(text)| == CountSeparators(text) + 1
    ensures forall i :: 0 <= i < |parsed| ==> parsed[i] == Strip(Split(text)[i])
  {
    var pieces := Split(text);
    SplitShape(text);
    parsed := [];
    for i := 0 to |pieces|
      invariant |parsed| == i
      invariant forall k :: 0 <= k < i ==> parsed[k] == Strip(pieces[k])
    {
      parsed := parsed + [Strip(pieces[i])];
    }
  }

  /** `Message(text)`: fails with ValueError when the first field is not an integer. */
  method NewMessage(text: string) returns (r: Result<Message>)
    ensures r.Ok? <==> ParseInt(Strip(Split(text)[0])).Some?
    ensures r.Err? ==> r.error == ValueError
    ensures r.Ok? ==> r.value.id == ParseInt(Strip(Split(text)[0])).value
    ensures r.Ok? ==> |r.value.raw| == |Split(text)| == CountSeparators(text) + 1
    ensures r.Ok? ==> forall i :: 0 <= i < |r.value.raw| ==> r.value.raw[i] == Strip(Split(text)[i])
  {
    var raw := ParseMessage(text);
    var id := ParseInt(raw[0]);
    if id.None? {
      return Err(ValueError);
    }
    return Ok(Message(raw, id.value));
  }

  /** The base message class has no type. */
  function GetType(m: Message): (r: Result<int>)
    ensures r.Err? && r.error == NotImplementedError
  {
    Err(NotImplementedError)
  }

  /** A message whose first field is a rendered integer gets that integer as identifier. */
  lemma MessageIdRoundTrip(n: int, rest: string)
    requires Separator !in rest
    ensures Split(IntToString(n) + [Separator] + rest) == [IntToString(n), rest]
    ensures ParseInt(Strip(Split(IntToString(n) + [Separator] + rest)[0])) == Some(n)
  {
    var pieces := [IntToString(n), rest];
    assert Separator !in IntToString(n) by {
      NoSeparatorInDigits(n);
    }
    assert Join(pieces) == IntToString(n) + [Separator] + rest by {
      assert pieces[1..] == [rest];
    }
    SplitJoin(pieces);
    ParseIntRoundTrip(n);
    StripRendered(n);
  }

  /** A rendered integer has no surrounding whitespace to strip. */
  lemma StripRendered(n: int)
    ensures Strip(IntToString(n)) == IntToString(n)
  {
    var t := IntToString(n);
    NoSeparatorInDigits(n);
    assert !IsSpace(t[0]);
    assert StripLeft(t) == t;
    assert !IsSpace(t[|t| - 1]);
    assert StripRight(t) == t;
  }

  lemma NoSeparatorInDigits(n: int)
    ensures Separator !in IntToString(n)
    ensures forall k :: 0 <= k < |IntToString(n)| ==> !IsSpace(IntToString(n)[k])
  {
    var d := if n < 0 then NatDigits(-n) else NatDigits(n);
    assert AllDigits(d);
    if n < 0 {
      assert forall k :: 1 <= k < |IntToString(n)| ==> IntToString(n)[k] == d[k - 1];
    }
  }
}
