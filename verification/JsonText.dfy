/**
 * JSON values and `JSON.stringify` without indentation (ECMA-262, section 25.5.2; RFC 8259),
 * over strings of 16-bit code units, lone surrogates included. A number stands for the text
 * that `Number::toString` gives it, so that 0 and -0 are one number.
 */
module JsonText {
  import opened Common

  type Unit = u: int | 0 <= u < 0x10000

  type Text = seq<Unit>

  const QUOTE: Unit := 34
  const BACKSLASH: Unit := 92
  const COMMA: Unit := 44
  const COLON: Unit := 58
  const OPEN_ARRAY: Unit := 91
  const CLOSE_ARRAY: Unit := 93
  const OPEN_OBJECT: Unit := 123
  const CLOSE_OBJECT: Unit := 125

  predicate Digits(t: Text) { t != [] && forall i :: 0 <= i < |t| ==> 48 <= t[i] <= 57 }

  /** An exponent or nothing: e or E, perhaps a sign, digits. */
  predicate IsExponent(t: Text) {
    t == [] || ((t[0] == 101 || t[0] == 69) &&
                (Digits(t[1..]) || (|t| > 1 && (t[1] == 43 || t[1] == 45) && Digits(t[2..]))))
  }

  /** A fraction or nothing, then an exponent or nothing. */
  predicate IsTail(t: Text) {
    IsExponent(t) || exists n :: 2 <= n <= |t| && t[0] == 46 && Digits(t[1..n]) && IsExponent(t[n..])
  }

  /** The number grammar of RFC 8259, section 6, without the minus: no leading zero. */
  predicate IsMagnitude(t: Text) {
    exists n :: 1 <= n <= |t| && Digits(t[..n]) && (t[0] == 48 ==> n == 1) && IsTail(t[n..])
  }

  predicate IsNumber(t: Text) { IsMagnitude(t) || (t != [] && t[0] == 45 && IsMagnitude(t[1..])) }

  /** Characters of a number: digits, plus, minus, point and e. */
  predicate NumberUnit(u: Unit) { 48 <= u <= 57 || u == 43 || u == 45 || u == 46 || u == 101 || u == 69 }

  lemma ExponentUnits(t: Text)
    requires IsExponent(t)
    ensures forall i :: 0 <= i < |t| ==> NumberUnit(t[i])
  {
    forall i | 0 <= i < |t| ensures NumberUnit(t[i]) {
      assert i >= 1 ==> t[1..][i - 1] == t[i];
      assert i >= 2 ==> t[2..][i - 2] == t[i];
    }
  }

  lemma TailUnits(t: Text)
    requires IsTail(t)
    ensures forall i :: 0 <= i < |t| ==> NumberUnit(t[i])
  {
    if IsExponent(t) {
      ExponentUnits(t);
    } else {
      var n :| 2 <= n <= |t| && t[0] == 46 && Digits(t[1..n]) && IsExponent(t[n..]);
      ExponentUnits(t[n..]);
      forall i | 0 <= i < |t| ensures NumberUnit(t[i]) {
        assert 1 <= i < n ==> t[1..n][i - 1] == t[i];
        assert i >= n ==> t[n..][i - n] == t[i];
      }
    }
  }

  lemma MagnitudeUnits(t: Text)
    requires IsMagnitude(t)
    ensures t != [] && 48 <= t[0] <= 57 && forall i :: 0 <= i < |t| ==> NumberUnit(t[i])
  {
    var n :| 1 <= n <= |t| && Digits(t[..n]) && IsTail(t[n..]);
    TailUnits(t[n..]);
    assert t[..n][0] == t[0];
    forall i | 0 <= i < |t| ensures NumberUnit(t[i]) {
      assert i < n ==> t[..n][i] == t[i];
      assert i >= n ==> t[n..][i - n] == t[i];
    }
  }

  /** A number is made of such characters and begins with a digit or a minus. */
  lemma NumberUnits(t: Text)
    requires IsNumber(t)
    ensures t != [] && (t[0] == 45 || 48 <= t[0] <= 57) && forall i :: 0 <= i < |t| ==> NumberUnit(t[i])
  {
    if IsMagnitude(t) {
      MagnitudeUnits(t);
    } else {
      MagnitudeUnits(t[1..]);
      forall i | 0 <= i < |t| ensures NumberUnit(t[i]) {
        assert i >= 1 ==> t[1..][i - 1] == t[i];
      }
    }
  }

  lemma ZeroIsNumber()
    ensures IsNumber([48])
  {
    var zero := [48];
    assert Digits(zero[..1]) && IsTail(zero[1..]);
  }

  type Number = t: Text | IsNumber(t) witness (ZeroIsNumber(); [48])

  datatype Json =
    | Null
    | Bool(b: bool)
    | Num(text: Number)
    | Str(s: Text)
    | Arr(items: seq<Json>)
    | Obj(members: seq<(Text, Json)>)

  // --------------------------------------------------------------- strings

  predicate High(u: Unit) { 0xD800 <= u < 0xDC00 }

  predicate Low(u: Unit) { 0xDC00 <= u < 0xE000 }

  function HexDigit(n: int): Unit
    requires 0 <= n < 16
  {
    if n < 10 then 48 + n else 87 + n
  }

  function UnicodeEscape(u: Unit): Text {
    [BACKSLASH, 117, HexDigit(u / 4096), HexDigit(u / 256 % 16), HexDigit(u / 16 % 16), HexDigit(u % 16)]
  }

  /** The letter of a two-character escape, if the unit has one. */
  function Short(u: Unit): Unit {
    match u
    case 8 => 98
    case 9 => 116
    case 10 => 110
    case 12 => 102
    case 13 => 114
    case 34 => 34
    case 92 => 92
    case _ => 0
  }

  /** One unit that is not part of a surrogate pair. */
  function EscapeUnit(u: Unit): Text {
    if Short(u) != 0 then [BACKSLASH, Short(u)]
    else if u < 32 || High(u) || Low(u) then UnicodeEscape(u)
    else [u]
  }

  predicate StartsWithPair(s: Text) { |s| >= 2 && High(s[0]) && Low(s[1]) }

  function Escape(s: Text): Text {
    if s == [] then []
    else if StartsWithPair(s) then s[..2] + Escape(s[2..])
    else EscapeUnit(s[0]) + Escape(s[1..])
  }

  function Quote(s: Text): Text { [QUOTE] + Escape(s) + [QUOTE] }

  /** Which units are escaped, and how, as QuoteJSONString of ECMA-262 has it: lone surrogates by lower-case digits. */
  lemma EscapesAre(u: Unit, h: Unit, l: Unit)
    ensures EscapeUnit(8) == [92, 98] && EscapeUnit(9) == [92, 116] && EscapeUnit(10) == [92, 110]
    ensures EscapeUnit(12) == [92, 102] && EscapeUnit(13) == [92, 114]
    ensures EscapeUnit(34) == [92, 34] && EscapeUnit(92) == [92, 92]
    ensures 32 <= u && u != 34 && u != 92 && !(0xD800 <= u <= 0xDFFF) ==> EscapeUnit(u) == [u]
    ensures (u < 32 && u !in {8, 9, 10, 12, 13}) || 0xD800 <= u <= 0xDFFF ==>
      |EscapeUnit(u)| == 6 && forall i :: 2 <= i < 6 ==>
        48 <= EscapeUnit(u)[i] <= 57 || 97 <= EscapeUnit(u)[i] <= 102
    ensures Escape([h, l]) ==
      if 0xD800 <= h <= 0xDBFF && 0xDC00 <= l <= 0xDFFF then [h, l] else EscapeUnit(h) + EscapeUnit(l)
  {
    assert [h, l][2..] == [] && [h, l][..2] == [h, l] && [h, l][1..] == [l] && [l][1..] == [];
  }

  // ---------------------------------------------------------------- values

  function Write(v: Json): Text {
    match v
    case Null => [110, 117, 108, 108]
    case Bool(b) => if b then [116, 114, 117, 101] else [102, 97, 108, 115, 101]
    case Num(t) => t
    case Str(s) => Quote(s)
    case Arr(items) => [OPEN_ARRAY] + WriteItems(items) + [CLOSE_ARRAY]
    case Obj(members) => [OPEN_OBJECT] + WriteMembers(members) + [CLOSE_OBJECT]
  }

  function WriteItems(items: seq<Json>): Text {
    if items == [] then []
    else if |items| == 1 then Write(items[0])
    else Write(items[0]) + [COMMA] + WriteItems(items[1..])
  }

  function WriteMember(m: (Text, Json)): Text { Quote(m.0) + [COLON] + Write(m.1) }

  function WriteMembers(members: seq<(Text, Json)>): Text {
    if members == [] then []
    else if |members| == 1 then WriteMember(members[0])
    else WriteMember(members[0]) + [COMMA] + WriteMembers(members[1..])
  }

  // ---------------------------------------------------------------- reading

  /** The value of a hexadecimal digit, if the unit is one. */
  function HexValue(u: Unit): int {
    if 48 <= u <= 57 then u - 48 else if 97 <= u <= 102 then u - 87 else if 65 <= u <= 70 then u - 55 else -1
  }

  predicate IsHex(u: Unit) { HexValue(u) >= 0 }

  /** What a two-character escape of JSON stands for, by its letter (RFC 8259, section 7). */
  function Unescape(letter: Unit): int {
    match letter
    case 34 => 34
    case 92 => 92
    case 47 => 47
    case 98 => 8
    case 102 => 12
    case 110 => 10
    case 114 => 13
    case 116 => 9
    case _ => -1
  }

  /** A piece of a string: one unit as it is or by an escape, and what follows it. */
  function ReadUnit(t: Text): (r: Option<(Unit, Text)>)
    ensures r.Some? ==> |r.value.1| < |t|
  {
    if t == [] || t[0] < 32 || t[0] == 34 then None
    else if t[0] != 92 then Some((t[0], t[1..]))
    else if |t| < 2 then None
    else if t[1] != 117 then
      if Unescape(t[1]) < 0 then None else Some((Unescape(t[1]), t[2..]))
    else if |t| < 6 || !IsHex(t[2]) || !IsHex(t[3]) || !IsHex(t[4]) || !IsHex(t[5]) then None
    else Some((4096 * HexValue(t[2]) + 256 * HexValue(t[3]) + 16 * HexValue(t[4]) + HexValue(t[5]), t[6..]))
  }

  /** A string from behind its opening quote, and what follows its closing quote. */
  function ReadString(t: Text): (r: Option<(Text, Text)>)
    ensures r.Some? ==> |r.value.1| < |t|
    decreases |t|
  {
    if t != [] && t[0] == 34 then Some(([], t[1..]))
    else
      match ReadUnit(t)
      case None => None
      case Some((u, rest)) =>
        match ReadString(rest)
        case None => None
        case Some((s, after)) => Some(([u] + s, after))
  }

  /** How many units a number takes. */
  function NumberLength(t: Text): (n: nat)
    ensures n <= |t| && forall i :: 0 <= i < n ==> NumberUnit(t[i])
  {
    if t == [] || !NumberUnit(t[0]) then 0 else 1 + NumberLength(t[1..])
  }

  /** A JSON value without blanks, and what follows it. */
  function Read(t: Text): (r: Option<(Json, Text)>)
    ensures r.Some? ==> |r.value.1| < |t|
    decreases |t|, 1
  {
    if t == [] then None
    else if [110, 117, 108, 108] <= t then Some((Null, t[4..]))
    else if [116, 114, 117, 101] <= t then Some((Bool(true), t[4..]))
    else if [102, 97, 108, 115, 101] <= t then Some((Bool(false), t[5..]))
    else if t[0] == 34 then
      match ReadString(t[1..]) case None => None case Some((s, rest)) => Some((Str(s), rest))
    else if t[0] == 91 then
      if |t| > 1 && t[1] == 93 then Some((Arr([]), t[2..]))
      else match ReadItems(t[1..]) case None => None case Some((items, rest)) => Some((Arr(items), rest))
    else if t[0] == 123 then
      if |t| > 1 && t[1] == 125 then Some((Obj([]), t[2..]))
      else match ReadMembers(t[1..]) case None => None case Some((members, rest)) => Some((Obj(members), rest))
    else
      var n := NumberLength(t);
      if n > 0 && IsNumber(t[..n]) then Some((Num(t[..n]), t[n..])) else None
  }

  /** One item or more, with the bracket that closes the array. */
  function ReadItems(t: Text): (r: Option<(seq<Json>, Text)>)
    ensures r.Some? ==> |r.value.1| < |t|
    decreases |t|, 2
  {
    match Read(t)
    case None => None
    case Some((v, rest)) =>
      if rest == [] then None
      else if rest[0] == 93 then Some(([v], rest[1..]))
      else if rest[0] != 44 then None
      else match ReadItems(rest[1..]) case None => None case Some((vs, after)) => Some(([v] + vs, after))
  }

  /** One member: a string, a colon and a value. */
  function ReadMember(t: Text): (r: Option<((Text, Json), Text)>)
    ensures r.Some? ==> |r.value.1| < |t|
    decreases |t|, 2
  {
    if t == [] || t[0] != 34 then None
    else
      match ReadString(t[1..])
      case None => None
      case Some((key, rest)) =>
        if rest == [] || rest[0] != 58 then None
        else match Read(rest[1..]) case None => None case Some((v, after)) => Some(((key, v), after))
  }

  /** One member or more, with the brace that closes the object. */
  function ReadMembers(t: Text): (r: Option<(seq<(Text, Json)>, Text)>)
    ensures r.Some? ==> |r.value.1| < |t|
    decreases |t|, 3
  {
    match ReadMember(t)
    case None => None
    case Some((m, rest)) =>
      if rest == [] then None
      else if rest[0] == 125 then Some(([m], rest[1..]))
      else if rest[0] != 44 then None
      else match ReadMembers(rest[1..]) case None => None case Some((ms, after)) => Some(([m] + ms, after))
  }

  // ------------------------------------------- what is written is read back

  lemma Regroup(a: Text, b: Text, c: Text, d: Text)
    ensures (a + b) + c + d == a + (b + c + d)
  {
  }

  lemma RegroupTail(h: Text, x: Text, close: Unit, r: Text)
    ensures (h + [COMMA] + x) + [close] + r == h + (([COMMA] + x) + [close] + r)
    ensures ([COMMA] + x) + [close] + r == [COMMA] + (x + [close] + r)
    ensures h + [close] + r == h + ([] + [close] + r) && [] + [close] + r == [close] + r
  {
    assert [] + [close] == [close];
    Regroup([COMMA], x, [close], r);
    Regroup(h, [COMMA] + x, [close], r);
    assert h + [COMMA] + x == h + ([COMMA] + x);
  }

  lemma HexDigits(u: Unit)
    ensures 4096 * (u / 4096) + 256 * (u / 256 % 16) + 16 * (u / 16 % 16) + u % 16 == u
  {
    assert u / 256 == u / 16 / 16 && u / 4096 == u / 256 / 16;
  }

  lemma HexDigitValue(n: int)
    requires 0 <= n < 16
    ensures HexValue(HexDigit(n)) == n
  {
  }

  lemma ReadEscapedUnit(u: Unit, r: Text)
    ensures ReadUnit(EscapeUnit(u) + r) == Some((u, r))
  {
    var t := EscapeUnit(u) + r;
    assert t[|EscapeUnit(u)|..] == r;
    if Short(u) == 0 && (u < 32 || High(u) || Low(u)) {
      HexDigits(u);
      HexDigitValue(u / 4096);
      HexDigitValue(u / 256 % 16);
      HexDigitValue(u / 16 % 16);
      HexDigitValue(u % 16);
    }
  }

  lemma ReadPlainUnit(u: Unit, r: Text)
    requires u >= 32 && u != 34 && u != 92
    ensures ReadUnit([u] + r) == Some((u, r))
  {
    assert ([u] + r)[1..] == r;
  }

  /** The escaped string up to the closing quote, and what follows. */
  function Closed(s: Text, r: Text): Text { Escape(s) + [QUOTE] + r }

  lemma ClosedSplit(s: Text, r: Text)
    ensures s == [] ==> Closed(s, r) == [QUOTE] + r
    ensures s != [] && StartsWithPair(s) ==> Closed(s, r) == [s[0]] + ([s[1]] + Closed(s[2..], r))
    ensures s != [] && !StartsWithPair(s) ==> Closed(s, r) == EscapeUnit(s[0]) + Closed(s[1..], r)
  {
    if s == [] {
      assert Closed(s, r) == [] + [QUOTE] + r;
    } else if StartsWithPair(s) {
      Regroup(s[..2], Escape(s[2..]), [QUOTE], r);
      assert s[..2] + Closed(s[2..], r) == [s[0]] + ([s[1]] + Closed(s[2..], r));
    } else {
      Regroup(EscapeUnit(s[0]), Escape(s[1..]), [QUOTE], r);
    }
  }

  lemma StringStep(t: Text, u: Unit, rest: Text, s: Text, r: Text)
    requires ReadUnit(t) == Some((u, rest)) && ReadString(rest) == Some((s, r))
    ensures ReadString(t) == Some(([u] + s, r))
  {
  }

  lemma {:induction false} ReadEscaped(s: Text, r: Text)
    ensures ReadString(Closed(s, r)) == Some((s, r))
  {
    ClosedSplit(s, r);
    hide Closed, EscapeUnit, ReadUnit;
    if s == [] {
      assert ([QUOTE] + r)[1..] == r;
    } else if StartsWithPair(s) {
      var rest := Closed(s[2..], r);
      ReadEscaped(s[2..], r);
      ReadPlainUnit(s[1], rest);
      StringStep([s[1]] + rest, s[1], rest, s[2..], r);
      ReadPlainUnit(s[0], [s[1]] + rest);
      StringStep(Closed(s, r), s[0], [s[1]] + rest, [s[1]] + s[2..], r);
      assert s == [s[0]] + ([s[1]] + s[2..]);
    } else {
      ReadEscaped(s[1..], r);
      ReadEscapedUnit(s[0], Closed(s[1..], r));
      StringStep(Closed(s, r), s[0], Closed(s[1..], r), s[1..], r);
      assert s == [s[0]] + s[1..];
    }
  }

  lemma ReadQuoted(s: Text, r: Text)
    ensures (Quote(s) + r)[0] == 34 && ReadString((Quote(s) + r)[1..]) == Some((s, r))
  {
    ReadEscaped(s, r);
    assert (Quote(s) + r)[1..] == Closed(s, r);
  }

  /** What can follow a value: nothing, a comma or a closing bracket. */
  predicate Stops(r: Text) { r == [] || r[0] == COMMA || r[0] == CLOSE_ARRAY || r[0] == CLOSE_OBJECT }

  lemma {:induction false} NumberEnds(a: Text, r: Text)
    requires Stops(r) && forall i :: 0 <= i < |a| ==> NumberUnit(a[i])
    ensures NumberLength(a + r) == |a|
  {
    if a == [] {
      assert a + r == r;
    } else {
      NumberEnds(a[1..], r);
      assert (a + r)[1..] == a[1..] + r;
    }
  }

  lemma WriteHead(v: Json, r: Text)
    ensures Write(v) != [] && (Write(v) + r)[0] == Write(v)[0]
    ensures !Stops(Write(v) + r)
  {
    if v.Num? { NumberUnits(v.text); }
  }

  /** What was written is read back, and the reader stops where the value ends. */
  lemma {:induction false} ReadWrite(v: Json, r: Text)
    requires Stops(r)
    ensures Read(Write(v) + r) == Some((v, r))
    decreases v, 1
  {
    var t := Write(v) + r;
    assert t[|Write(v)|..] == r;
    match v {
      case Null =>
        assert [110, 117, 108, 108] <= t;
      case Bool(b) =>
        assert Write(v) <= t && t[0] == if b then 116 else 102;
      case Num(a) =>
        NumberUnits(a);
        NumberEnds(a, r);
        assert t[..|a|] == a && t[0] == a[0];
      case Str(s) =>
        ReadQuoted(s, r);
      case Arr(items) =>
        Regroup([OPEN_ARRAY], WriteItems(items), [CLOSE_ARRAY], r);
        ReadArray(items, t, r);
      case Obj(members) =>
        Regroup([OPEN_OBJECT], WriteMembers(members), [CLOSE_OBJECT], r);
        ReadObject(members, t, r);
    }
  }

  lemma {:induction false} ReadArray(items: seq<Json>, t: Text, r: Text)
    requires t == [OPEN_ARRAY] + (WriteItems(items) + [CLOSE_ARRAY] + r)
    ensures Read(t) == Some((Arr(items), r))
    decreases items, 1
  {
    var rest := WriteItems(items) + [CLOSE_ARRAY] + r;
    assert t[0] == 91 && t[1..] == rest;
    if items == [] {
      assert rest == [CLOSE_ARRAY] + r && t[2..] == r;
    } else {
      ItemsRead(items, r);
      ItemsSplit(items, r);
      WriteHead(items[0], ItemsTail(items) + [CLOSE_ARRAY] + r);
      hide WriteItems, ItemsTail, Write, ReadMembers, ReadItems, ReadString, NumberLength;
      assert t[1] == rest[0];
    }
  }

  lemma {:induction false} ReadObject(members: seq<(Text, Json)>, t: Text, r: Text)
    requires t == [OPEN_OBJECT] + (WriteMembers(members) + [CLOSE_OBJECT] + r)
    ensures Read(t) == Some((Obj(members), r))
    decreases members, 1
  {
    var rest := WriteMembers(members) + [CLOSE_OBJECT] + r;
    assert t[0] == 123 && t[1..] == rest;
    if members == [] {
      assert rest == [CLOSE_OBJECT] + r && t[2..] == r;
    } else {
      MembersRead(members, r);
      MembersSplit(members, r);
      hide WriteMembers, MembersTail, WriteMember, ReadMembers, ReadItems, ReadString, NumberLength;
      assert t[1] == rest[0] && t != [];
    }
  }

  /** What follows the first item, up to the closing bracket. */
  function ItemsTail(items: seq<Json>): Text
    requires items != []
  {
    if |items| == 1 then [] else [COMMA] + WriteItems(items[1..])
  }

  lemma ItemsSplit(items: seq<Json>, r: Text)
    requires items != []
    ensures WriteItems(items) + [CLOSE_ARRAY] + r == Write(items[0]) + (ItemsTail(items) + [CLOSE_ARRAY] + r)
    ensures Stops(ItemsTail(items) + [CLOSE_ARRAY] + r)
    ensures var tail := ItemsTail(items) + [CLOSE_ARRAY] + r;
      && tail != []
      && (|items| == 1 ==> tail[0] == CLOSE_ARRAY && tail[1..] == r)
      && (|items| > 1 ==> tail[0] == COMMA && tail[1..] == WriteItems(items[1..]) + [CLOSE_ARRAY] + r)
  {
    hide Write;
    if |items| == 1 {
      RegroupTail(Write(items[0]), [], CLOSE_ARRAY, r);
    } else {
      RegroupTail(Write(items[0]), WriteItems(items[1..]), CLOSE_ARRAY, r);
    }
  }

  /** The first item and the others make up the list. */
  lemma ItemsJoin(items: seq<Json>, r: Text)
    requires items != []
    requires Read(Write(items[0]) + (ItemsTail(items) + [CLOSE_ARRAY] + r))
      == Some((items[0], ItemsTail(items) + [CLOSE_ARRAY] + r))
    requires |items| > 1 ==> ReadItems(WriteItems(items[1..]) + [CLOSE_ARRAY] + r) == Some((items[1..], r))
    ensures ReadItems(WriteItems(items) + [CLOSE_ARRAY] + r) == Some((items, r))
  {
    ItemsSplit(items, r);
    hide Write, WriteItems, ItemsTail, Read;
    if |items| == 1 {
      assert items == [items[0]];
    } else {
      assert items == [items[0]] + items[1..];
    }
  }

  lemma {:induction false} ItemsRead(items: seq<Json>, r: Text)
    requires items != []
    ensures ReadItems(WriteItems(items) + [CLOSE_ARRAY] + r) == Some((items, r))
    decreases items, 0
  {
    ItemsSplit(items, r);
    ReadWrite(items[0], ItemsTail(items) + [CLOSE_ARRAY] + r);
    if |items| > 1 {
      ItemsRead(items[1..], r);
    }
    hide *;
    ItemsJoin(items, r);
  }

  function MembersTail(members: seq<(Text, Json)>): Text
    requires members != []
  {
    if |members| == 1 then [] else [COMMA] + WriteMembers(members[1..])
  }

  lemma MembersSplit(members: seq<(Text, Json)>, r: Text)
    requires members != []
    ensures WriteMembers(members) + [CLOSE_OBJECT] + r
      == WriteMember(members[0]) + (MembersTail(members) + [CLOSE_OBJECT] + r)
    ensures Stops(MembersTail(members) + [CLOSE_OBJECT] + r)
    ensures var tail := MembersTail(members) + [CLOSE_OBJECT] + r;
      && tail != []
      && (|members| == 1 ==> tail[0] == CLOSE_OBJECT && tail[1..] == r)
      && (|members| > 1 ==> tail[0] == COMMA && tail[1..] == WriteMembers(members[1..]) + [CLOSE_OBJECT] + r)
    ensures (WriteMembers(members) + [CLOSE_OBJECT] + r)[0] == QUOTE
  {
    hide Write, Escape;
    if |members| == 1 {
      RegroupTail(WriteMember(members[0]), [], CLOSE_OBJECT, r);
    } else {
      RegroupTail(WriteMember(members[0]), WriteMembers(members[1..]), CLOSE_OBJECT, r);
    }
  }

  lemma {:induction false} MemberRead(m: (Text, Json), r: Text)
    requires Stops(r)
    ensures ReadMember(WriteMember(m) + r) == Some((m, r))
    decreases m, 0
  {
    var t, rest := WriteMember(m) + r, [COLON] + (Write(m.1) + r);
    assert t == Quote(m.0) + rest;
    ReadQuoted(m.0, rest);
    ReadWrite(m.1, r);
    assert rest[1..] == Write(m.1) + r;
  }

  lemma MembersJoin(members: seq<(Text, Json)>, r: Text)
    requires members != []
    requires ReadMember(WriteMember(members[0]) + (MembersTail(members) + [CLOSE_OBJECT] + r))
      == Some((members[0], MembersTail(members) + [CLOSE_OBJECT] + r))
    requires |members| > 1 ==> ReadMembers(WriteMembers(members[1..]) + [CLOSE_OBJECT] + r) == Some((members[1..], r))
    ensures ReadMembers(WriteMembers(members) + [CLOSE_OBJECT] + r) == Some((members, r))
  {
    MembersSplit(members, r);
    hide WriteMember, WriteMembers, MembersTail, ReadMember;
    if |members| == 1 {
      assert members == [members[0]];
    } else {
      assert members == [members[0]] + members[1..];
    }
  }

  lemma {:induction false} MembersRead(members: seq<(Text, Json)>, r: Text)
    requires members != []
    ensures ReadMembers(WriteMembers(members) + [CLOSE_OBJECT] + r) == Some((members, r))
    decreases members, 0
  {
    MembersSplit(members, r);
    MemberRead(members[0], MembersTail(members) + [CLOSE_OBJECT] + r);
    if |members| > 1 {
      MembersRead(members[1..], r);
    }
    hide *;
    MembersJoin(members, r);
  }

  /** No text of a value is a proper beginning of another: the text determines the value and where it ends. */
  lemma WriteUnique(v: Json, w: Json, r: Text, q: Text)
    requires Stops(r) && Stops(q) && Write(v) + r == Write(w) + q
    ensures v == w && r == q
  {
    ReadWrite(v, r);
    ReadWrite(w, q);
  }

  /** The whole text of a value is read back as that value. */
  lemma ReadBack(v: Json)
    ensures Read(Write(v)) == Some((v, []))
  {
    ReadWrite(v, []);
    assert Write(v) + [] == Write(v);
  }

  /** Two values print to the same text exactly when they are the same, member order included. */
  lemma WriteInjective(v: Json, w: Json)
    ensures Write(v) == Write(w) <==> v == w
  {
    if Write(v) == Write(w) {
      ReadBack(v);
      ReadBack(w);
    }
  }
}
