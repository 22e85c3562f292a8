/**
 * Canonical JSON text (packages/tasq-authority/src/index.ts:46-67; the control
 * plane's own serializer at packages/tasq-cloud-control-plane/src/index.ts:397-417
 * differs only in the order it sorts keys by). Text is UTF-16 code units and
 * strings are escaped as JSON.stringify does, within section 7 of RFC 8259.
 */
module CanonicalJson {
  import opened Common
  import opened Sorting

  /** An object's members in insertion order. */
  datatype Json =
    | Null
    | Bool(b: bool)
    | Num(n: int)
    | Str(s: Text)
    | Arr(items: seq<Json>)
    | Obj(members: seq<Member>)

  datatype Member = Member(key: Text, value: Json)

  const QUOTE: Unit := 0x22
  const COMMA: Unit := 0x2C
  const MINUS: Unit := 0x2D
  const ZERO: Unit := 0x30
  const COLON: Unit := 0x3A
  const OPEN_ARR: Unit := 0x5B
  const BACKSLASH: Unit := 0x5C
  const CLOSE_ARR: Unit := 0x5D
  const OPEN_OBJ: Unit := 0x7B
  const CLOSE_OBJ: Unit := 0x7D
  const LOWER_U: Unit := 0x75

  // ----- strings

  function HexDigit(n: int): Unit
    requires 0 <= n < 16
  {
    if n < 10 then ZERO + n else 0x61 + (n - 10)
  }

  function HexEscape(u: Unit): Text {
    [BACKSLASH, LOWER_U, HexDigit(u / 4096), HexDigit(u / 256 % 16), HexDigit(u / 16 % 16), HexDigit(u % 16)]
  }

  predicate IsHigh(u: Unit) {
    0xD800 <= u < 0xDC00
  }

  predicate IsLow(u: Unit) {
    0xDC00 <= u < 0xE000
  }

  function ShortEscape(u: Unit): Option<Unit> {
    if u == QUOTE || u == BACKSLASH then Some(u)
    else if u == 8 then Some(0x62)
    else if u == 9 then Some(0x74)
    else if u == 10 then Some(0x6E)
    else if u == 12 then Some(0x66)
    else if u == 13 then Some(0x72)
    else None
  }

  function EscapeUnit(u: Unit): Text {
    if ShortEscape(u).Some? then [BACKSLASH, ShortEscape(u).value]
    else if u < 0x20 || IsHigh(u) || IsLow(u) then HexEscape(u)
    else [u]
  }

  /** Surrogate pairs stay as they are; a lone surrogate is escaped. */
  function Escaped(s: Text): Text {
    if s == [] then []
    else if |s| > 1 && IsHigh(s[0]) && IsLow(s[1]) then [s[0], s[1]] + Escaped(s[2..])
    else EscapeUnit(s[0]) + Escaped(s[1..])
  }

  function Quoted(s: Text): Text {
    [QUOTE] + Escaped(s) + [QUOTE]
  }

  function FromHex(u: Unit): Option<int> {
    if ZERO <= u < ZERO + 10 then Some(u - ZERO)
    else if 0x61 <= u < 0x67 then Some(u - 0x61 + 10)
    else None
  }

  function FromShort(c: Unit): Option<Unit> {
    if c == QUOTE || c == BACKSLASH then Some(c)
    else if c == 0x62 then Some(8)
    else if c == 0x74 then Some(9)
    else if c == 0x6E then Some(10)
    else if c == 0x66 then Some(12)
    else if c == 0x72 then Some(13)
    else None
  }

  function FromHex4(a: Unit, b: Unit, c: Unit, d: Unit): Option<Unit> {
    if FromHex(a).None? || FromHex(b).None? || FromHex(c).None? || FromHex(d).None? then None
    else
      var n := FromHex(a).value * 4096 + FromHex(b).value * 256 + FromHex(c).value * 16 + FromHex(d).value;
      if 0 <= n < 0x1_0000 then Some(n) else None
  }

  /** One code unit of string content and what follows it; None at the closing quote. */
  function ReadUnit(t: Text): (r: Option<(Unit, Text)>)
    ensures r.Some? ==> |r.value.1| < |t|
  {
    if t == [] || t[0] == QUOTE then None
    else if t[0] != BACKSLASH then Some((t[0], t[1..]))
    else if |t| >= 2 && FromShort(t[1]).Some? then Some((FromShort(t[1]).value, t[2..]))
    else if |t| >= 6 && t[1] == LOWER_U && FromHex4(t[2], t[3], t[4], t[5]).Some? then
      Some((FromHex4(t[2], t[3], t[4], t[5]).value, t[6..]))
    else None
  }

  lemma HexDigitReadsBack(n: int)
    requires 0 <= n < 16
    ensures FromHex(HexDigit(n)) == Some(n)
  {
  }

  lemma Nibbles(u: int)
    requires 0 <= u
    ensures u / 4096 * 4096 + u / 256 % 16 * 256 + u / 16 % 16 * 16 + u % 16 == u
  {
    assert u / 16 / 16 == u / 256 && u / 256 / 16 == u / 4096;
    assert u == u / 16 * 16 + u % 16;
    assert u / 16 == u / 256 * 16 + u / 16 % 16;
    assert u / 256 == u / 4096 * 16 + u / 256 % 16;
  }

  lemma HexReadsBack(u: Unit)
    ensures var h := HexEscape(u); FromHex4(h[2], h[3], h[4], h[5]) == Some(u)
  {
    HexDigitReadsBack(u / 4096);
    HexDigitReadsBack(u / 256 % 16);
    HexDigitReadsBack(u / 16 % 16);
    HexDigitReadsBack(u % 16);
    Nibbles(u);
  }

  /** A unit that may stand for itself does, another is escaped by one letter if there is one, and the rest in hex. */
  lemma EscapeIsShortest(u: Unit)
    ensures var plain := 0x20 <= u && u != 0x22 && u != 0x5C && !(0xD800 <= u <= 0xDFFF);
      var letter := exists c :: FromShort(c) == Some(u);
      |EscapeUnit(u)| == if plain then 1 else if letter then 2 else 6
  {
    if ShortEscape(u).Some? {
      assert FromShort(ShortEscape(u).value) == Some(u);
    }
  }

  /** Two surrogates stand for themselves exactly when they are a pair: a high one followed by a low one. */
  lemma PairsStandExactly(h: Unit, l: Unit)
    requires 0xD800 <= h <= 0xDFFF && 0xD800 <= l <= 0xDFFF
    ensures Escaped([h, l]) == [h, l] <==> h <= 0xDBFF && 0xDC00 <= l
  {
    assert [h, l][2..] == [] && [h, l][1..] == [l] && [l][1..] == [];
    EscapeIsShortest(h);
    EscapeIsShortest(l);
  }

  lemma UnitReadsBack(u: Unit, rest: Text)
    ensures ReadUnit(EscapeUnit(u) + rest) == Some((u, rest))
  {
    var t := EscapeUnit(u) + rest;
    if ShortEscape(u).Some? {
      assert t[1] == ShortEscape(u).value && t[2..] == rest;
    } else if u < 0x20 || IsHigh(u) || IsLow(u) {
      HexReadsBack(u);
      assert t[6..] == rest;
    } else {
      assert t[1..] == rest;
    }
  }

  /** String content up to the closing quote, and what follows the quote. */
  function ReadString(t: Text): (r: Option<(Text, Text)>)
    ensures r.Some? ==> |r.value.1| < |t|
    decreases |t|
  {
    if t == [] then None
    else if t[0] == QUOTE then Some(([], t[1..]))
    else
      match ReadUnit(t)
      case None => None
      case Some((u, rest)) =>
        match ReadString(rest)
        case None => None
        case Some((s, after)) => Some(([u] + s, after))
  }

  lemma ReadStringStep(u: Unit, t: Text, rest: Text, s: Text, after: Text)
    requires t != [] && t[0] != QUOTE && ReadUnit(t) == Some((u, rest)) && ReadString(rest) == Some((s, after))
    ensures ReadString(t) == Some(([u] + s, after))
  {
  }

  lemma UnitStep(u: Unit, rest: Text, s: Text, after: Text)
    requires ReadString(rest) == Some((s, after))
    ensures ReadString(EscapeUnit(u) + rest) == Some(([u] + s, after))
  {
    UnitReadsBack(u, rest);
    ReadStringStep(u, EscapeUnit(u) + rest, rest, s, after);
  }

  lemma PairStep(high: Unit, low: Unit, rest: Text, s: Text, after: Text)
    requires IsHigh(high) && IsLow(low) && ReadString(rest) == Some((s, after))
    ensures ReadString([high, low] + rest) == Some(([high] + ([low] + s), after))
  {
    var t := [high, low] + rest;
    assert t[1..] == [low] + rest && t[1..][1..] == rest;
    ReadStringStep(low, t[1..], rest, s, after);
    ReadStringStep(high, t, t[1..], [low] + s, after);
  }

  /** The text of a string up to its closing quote, and a remainder. */
  function Ending(s: Text, x: Text): Text {
    Escaped(s) + [QUOTE] + x
  }

  lemma EndingPair(s: Text, x: Text)
    requires |s| > 1 && IsHigh(s[0]) && IsLow(s[1])
    ensures Ending(s, x) == [s[0], s[1]] + Ending(s[2..], x)
    ensures s == [s[0]] + ([s[1]] + s[2..])
  {
  }

  lemma EndingUnit(s: Text, x: Text)
    requires s != [] && !(|s| > 1 && IsHigh(s[0]) && IsLow(s[1]))
    ensures Ending(s, x) == EscapeUnit(s[0]) + Ending(s[1..], x)
    ensures s == [s[0]] + s[1..]
  {
  }

  lemma EndingNothing(x: Text)
    ensures ReadString(Ending([], x)) == Some(([], x))
  {
    assert Ending([], x)[1..] == x;
  }

  lemma {:induction false} StringReadsBack(s: Text, x: Text)
    ensures ReadString(Ending(s, x)) == Some((s, x))
  {
    if s == [] {
      EndingNothing(x);
    } else if |s| > 1 && IsHigh(s[0]) && IsLow(s[1]) {
      StringReadsBack(s[2..], x);
      PairStep(s[0], s[1], Ending(s[2..], x), s[2..], x);
      EndingPair(s, x);
    } else {
      StringReadsBack(s[1..], x);
      UnitStep(s[0], Ending(s[1..], x), s[1..], x);
      EndingUnit(s, x);
    }
  }

  /** A quoted string determines its contents and the remainder. */
  lemma QuotedIsPrefixFree(a: Text, b: Text, x: Text, y: Text)
    requires Quoted(a) + x == Quoted(b) + y
    ensures a == b && x == y
  {
    assert (Quoted(a) + x)[1..] == Ending(a, x);
    assert (Quoted(b) + y)[1..] == Ending(b, y);
    StringReadsBack(a, x);
    StringReadsBack(b, y);
  }

  // ----- numbers

  function Digits(n: nat): (s: Text)
    ensures s != [] && forall i :: 0 <= i < |s| ==> ZERO <= s[i] < ZERO + 10
  {
    if n < 10 then [ZERO + n] else Digits(n / 10) + [ZERO + n % 10]
  }

  function FromDigits(s: Text): int {
    if s == [] then 0 else FromDigits(s[..|s| - 1]) * 10 + (s[|s| - 1] - ZERO)
  }

  lemma {:induction false} DigitsReadBack(n: nat)
    ensures FromDigits(Digits(n)) == n
  {
    var s := Digits(n);
    if n >= 10 {
      DigitsReadBack(n / 10);
      assert s[..|s| - 1] == Digits(n / 10);
    } else {
      assert s[..0] == [] && FromDigits([]) == 0;
    }
  }

  function Decimal(n: int): Text {
    if n < 0 then [MINUS] + Digits(-n) else Digits(n)
  }

  predicate IsDigit(u: Unit) {
    ZERO <= u < ZERO + 10
  }

  /** What may follow a value: nothing, or something that does not continue a number. */
  predicate Terminated(x: Text) {
    x == [] || !IsDigit(x[0])
  }

  lemma Overhang(a: Text, x: Text, b: Text, y: Text)
    requires a + x == b + y
    ensures |a| < |b| ==> x != [] && x[0] == b[|a|]
  {
    if |a| < |b| {
      assert (a + x)[|a|] == (b + y)[|a|];
    }
  }

  lemma DigitsArePrefixFree(m: nat, n: nat, x: Text, y: Text)
    requires Digits(m) + x == Digits(n) + y && Terminated(x) && Terminated(y)
    ensures m == n && x == y
  {
    var a, b := Digits(m), Digits(n);
    var t := a + x;
    Overhang(a, x, b, y);
    Overhang(b, y, a, x);
    assert t[..|a|] == a && t[..|b|] == b;
    assert t[|a|..] == x && t[|b|..] == y;
    DigitsReadBack(m);
    DigitsReadBack(n);
  }

  lemma DecimalSign(n: int)
    ensures Decimal(n) != [] && (Decimal(n)[0] == MINUS <==> n < 0)
  {
  }

  lemma DropFirst(u: Unit, a: Text, b: Text)
    requires [u] + a == [u] + b
    ensures a == b
  {
    assert ([u] + a)[1..] == a && ([u] + b)[1..] == b;
  }

  lemma DropPrefix(c: Text, a: Text, b: Text, x: Text, y: Text)
    requires c + a + x == c + b + y
    ensures a + x == b + y
  {
    assert (c + a + x)[|c|..] == a + x && (c + b + y)[|c|..] == b + y;
  }

  lemma DecimalIsPrefixFree(m: int, n: int, x: Text, y: Text)
    requires Decimal(m) + x == Decimal(n) + y && Terminated(x) && Terminated(y)
    ensures m == n && x == y
  {
    DecimalSign(m);
    DecimalSign(n);
    assert Decimal(m)[0] == (Decimal(m) + x)[0] == Decimal(n)[0];
    if m < 0 {
      DropPrefix([MINUS], Digits(-m), Digits(-n), x, y);
      DigitsArePrefixFree(-m, -n, x, y);
    } else {
      DigitsArePrefixFree(m, n, x, y);
    }
  }

  // ----- values

  function KeyOf(): Member -> Text {
    (m: Member) => m.key
  }

  type Order = (Text, Text) -> bool

  function SortedMembers(members: seq<Member>, leq: Order): (r: seq<Member>)
    ensures forall m :: m in r <==> m in members
    ensures |r| == |members|
  {
    var r := Sort(members, KeyOf(), leq);
    SameMembers(r, members);
    r
  }

  const TRUE_TEXT: Text := [0x74, 0x72, 0x75, 0x65]
  const FALSE_TEXT: Text := [0x66, 0x61, 0x6C, 0x73, 0x65]
  const NULL_TEXT: Text := [0x6E, 0x75, 0x6C, 0x6C]

  function Canonical(v: Json, leq: Order): Text
    decreases v, 1, 0
  {
    match v
    case Null => NULL_TEXT
    case Bool(b) => if b then TRUE_TEXT else FALSE_TEXT
    case Num(n) => Decimal(n)
    case Str(s) => Quoted(s)
    case Arr(items) => [OPEN_ARR] + Items(v, items, leq) + [CLOSE_ARR]
    case Obj(members) => [OPEN_OBJ] + Members(v, SortedMembers(members, leq), leq) + [CLOSE_OBJ]
  }

  /** Items joined by commas. */
  function Items(ghost parent: Json, items: seq<Json>, leq: Order): Text
    requires parent.Arr? && forall i :: i in items ==> i in parent.items
    decreases parent, 0, |items|
  {
    if items == [] then []
    else
      assert items[0] in parent.items;
      Canonical(items[0], leq)
      + (if |items| == 1 then [] else [COMMA] + Items(parent, items[1..], leq))
  }

  /** Members joined by commas, each a quoted key, a colon and a value. */
  function Members(ghost parent: Json, members: seq<Member>, leq: Order): Text
    requires parent.Obj? && forall m :: m in members ==> m in parent.members
    decreases parent, 0, |members|
  {
    if members == [] then []
    else
      assert members[0] in parent.members;
      Quoted(members[0].key) + [COLON] + Canonical(members[0].value, leq)
      + (if |members| == 1 then [] else [COMMA] + Members(parent, members[1..], leq))
  }

  /** Safe integers only, and no key twice in one object. */
  ghost predicate Portable(v: Json) {
    match v
    case Num(n) => -MAX_SAFE <= n <= MAX_SAFE
    case Arr(items) => forall i :: i in items ==> Portable(i)
    case Obj(members) => DistinctKeys(members, KeyOf()) && forall m :: m in members ==> Portable(m.value)
    case _ => true
  }

  /** The same value: objects compared as maps, whatever the insertion order. */
  ghost predicate Equal(v: Json, w: Json) {
    match v
    case Arr(items) =>
      w.Arr? && |items| == |w.items| && forall i :: 0 <= i < |items| ==> Equal(items[i], w.items[i])
    case Obj(members) =>
      && w.Obj?
      && multiset(Keys(members, KeyOf())) == multiset(Keys(w.members, KeyOf()))
      && forall m, n :: m in members && n in w.members && m.key == n.key ==> Equal(m.value, n.value)
    case _ => v == w
  }

  // ----- equal values have equal text

  lemma {:induction false} EqualItemsText(v: Json, w: Json, xs: seq<Json>, ys: seq<Json>, leq: Order)
    requires TotalOrder(leq) && Portable(v) && Portable(w) && v.Arr? && w.Arr?
    requires forall i :: i in xs ==> i in v.items
    requires forall i :: i in ys ==> i in w.items
    requires |xs| == |ys| && forall i :: 0 <= i < |xs| ==> Equal(xs[i], ys[i])
    ensures Items(v, xs, leq) == Items(w, ys, leq)
    decreases v, 0, |xs|
  {
    if xs != [] {
      assert xs[0] in v.items && ys[0] in w.items && Equal(xs[0], ys[0]);
      EqualText(xs[0], ys[0], leq);
      EqualItemsText(v, w, xs[1..], ys[1..], leq);
    }
  }

  lemma {:induction false} EqualMembersText(v: Json, w: Json, xs: seq<Member>, ys: seq<Member>, leq: Order)
    requires TotalOrder(leq) && Portable(v) && Portable(w) && v.Obj? && w.Obj? && Equal(v, w)
    requires forall m :: m in xs ==> m in v.members
    requires forall m :: m in ys ==> m in w.members
    requires |xs| == |ys| && forall i :: 0 <= i < |xs| ==> xs[i].key == ys[i].key
    ensures Members(v, xs, leq) == Members(w, ys, leq)
    decreases v, 0, |xs|
  {
    if xs != [] {
      assert xs[0] in v.members && ys[0] in w.members && Equal(xs[0].value, ys[0].value);
      EqualText(xs[0].value, ys[0].value, leq);
      EqualMembersText(v, w, xs[1..], ys[1..], leq);
    }
  }

  lemma SortedMembersAgree(xs: seq<Member>, ys: seq<Member>, leq: Order)
    requires TotalOrder(leq) && DistinctKeys(xs, KeyOf())
    requires multiset(Keys(xs, KeyOf())) == multiset(Keys(ys, KeyOf()))
    ensures var sx, sy := SortedMembers(xs, leq), SortedMembers(ys, leq);
      |sx| == |sy| && forall i :: 0 <= i < |sx| ==> sx[i].key == sy[i].key
  {
    SortedKeysAgree(xs, ys, KeyOf(), leq);
  }

  /** Key insertion order never shows in the text. */
  lemma {:induction false} EqualText(v: Json, w: Json, leq: Order)
    requires TotalOrder(leq) && Portable(v) && Portable(w) && Equal(v, w)
    ensures Canonical(v, leq) == Canonical(w, leq)
    decreases v, 1, 0
  {
    if v.Arr? {
      EqualItemsText(v, w, v.items, w.items, leq);
    } else if v.Obj? {
      SortedMembersAgree(v.members, w.members, leq);
      EqualMembersText(v, w, SortedMembers(v.members, leq), SortedMembers(w.members, leq), leq);
    }
  }

  // ----- equal text means equal values

  /** The first code unit of a value's text tells its kind. */
  predicate Starts(v: Json, u: Unit) {
    match v
    case Null => u == 0x6E
    case Bool(b) => u == if b then 0x74 else 0x66
    case Num(_) => u == MINUS || IsDigit(u)
    case Str(_) => u == QUOTE
    case Arr(_) => u == OPEN_ARR
    case Obj(_) => u == OPEN_OBJ
  }

  lemma TextStarts(v: Json, leq: Order)
    ensures Canonical(v, leq) != [] && Starts(v, Canonical(v, leq)[0])
  {
  }

  /** Same text before a closing bracket: same value, same remainder. */
  lemma {:induction false} TextIsPrefixFree(v: Json, w: Json, x: Text, y: Text, leq: Order)
    requires TotalOrder(leq) && Portable(v) && Portable(w) && Terminated(x) && Terminated(y)
    requires Canonical(v, leq) + x == Canonical(w, leq) + y
    ensures Equal(v, w) && x == y
    decreases v, 1, 0
  {
    TextStarts(v, leq);
    TextStarts(w, leq);
    assert Canonical(v, leq)[0] == (Canonical(v, leq) + x)[0] == Canonical(w, leq)[0];
    match v
    case Null => SameConstant(NULL_TEXT, x, y);
    case Bool(b) => SameConstant(if b then TRUE_TEXT else FALSE_TEXT, x, y);
    case Num(n) => DecimalIsPrefixFree(n, w.n, x, y);
    case Str(s) => QuotedIsPrefixFree(s, w.s, x, y);
    case Arr(items) =>
      var a, b := Items(v, items, leq), Items(w, w.items, leq);
      Unwrap(OPEN_ARR, a, b, CLOSE_ARR, x, y);
      ItemsArePrefixFree(v, w, items, w.items, x, y, leq);
    case Obj(members) =>
      var xs, ys := SortedMembers(members, leq), SortedMembers(w.members, leq);
      Unwrap(OPEN_OBJ, Members(v, xs, leq), Members(w, ys, leq), CLOSE_OBJ, x, y);
      MembersArePrefixFree(v, w, xs, ys, x, y, leq);
      SortedPairsMeanEqual(v, w, leq);
  }

  lemma SameConstant(c: Text, x: Text, y: Text)
    requires c + x == c + y
    ensures x == y
  {
    assert (c + x)[|c|..] == x && (c + y)[|c|..] == y;
  }

  lemma Unwrap(open: Unit, a: Text, b: Text, close: Unit, x: Text, y: Text)
    requires [open] + a + [close] + x == [open] + b + [close] + y
    ensures a + [close] + x == b + [close] + y
  {
    assert [open] + a + [close] + x == [open] + (a + [close] + x);
    assert [open] + b + [close] + y == [open] + (b + [close] + y);
    DropFirst(open, a + [close] + x, b + [close] + y);
  }

  lemma ItemsUnfold(v: Json, xs: seq<Json>, x: Text, leq: Order)
    requires v.Arr? && xs != [] && forall i :: i in xs ==> i in v.items
    ensures Items(v, xs, leq) + [CLOSE_ARR] + x ==
      Canonical(xs[0], leq)
      + (if |xs| == 1 then [CLOSE_ARR] + x else [COMMA] + (Items(v, xs[1..], leq) + [CLOSE_ARR] + x))
  {
  }

  lemma {:induction false} ItemsArePrefixFree(
    v: Json, w: Json, xs: seq<Json>, ys: seq<Json>, x: Text, y: Text, leq: Order)
    requires TotalOrder(leq) && Portable(v) && Portable(w) && v.Arr? && w.Arr?
    requires forall i :: i in xs ==> i in v.items
    requires forall i :: i in ys ==> i in w.items
    requires Items(v, xs, leq) + [CLOSE_ARR] + x == Items(w, ys, leq) + [CLOSE_ARR] + y
    ensures |xs| == |ys| && x == y
    ensures forall i :: 0 <= i < |xs| ==> Equal(xs[i], ys[i])
    decreases v, 0, |xs|
  {
    if xs == [] || ys == [] {
      NoItemsNoOthers(v, w, xs, ys, x, y, leq);
    } else {
      ItemsUnfold(v, xs, x, leq);
      ItemsUnfold(w, ys, y, leq);
      var p := if |xs| == 1 then [CLOSE_ARR] + x else [COMMA] + (Items(v, xs[1..], leq) + [CLOSE_ARR] + x);
      var q := if |ys| == 1 then [CLOSE_ARR] + y else [COMMA] + (Items(w, ys[1..], leq) + [CLOSE_ARR] + y);
      assert xs[0] in v.items && ys[0] in w.items;
      TextIsPrefixFree(xs[0], ys[0], p, q, leq);
      assert p[0] == q[0];
      if |xs| == 1 {
        DropFirst(CLOSE_ARR, x, y);
      } else {
        DropFirst(COMMA, Items(v, xs[1..], leq) + [CLOSE_ARR] + x, Items(w, ys[1..], leq) + [CLOSE_ARR] + y);
        ItemsArePrefixFree(v, w, xs[1..], ys[1..], x, y, leq);
        assert forall i :: 0 < i < |xs| ==> xs[i] == xs[1..][i - 1] && ys[i] == ys[1..][i - 1];
      }
    }
  }

  lemma NoItemsNoOthers(v: Json, w: Json, xs: seq<Json>, ys: seq<Json>, x: Text, y: Text, leq: Order)
    requires v.Arr? && w.Arr?
    requires forall i :: i in xs ==> i in v.items
    requires forall i :: i in ys ==> i in w.items
    requires xs == [] || ys == []
    requires Items(v, xs, leq) + [CLOSE_ARR] + x == Items(w, ys, leq) + [CLOSE_ARR] + y
    ensures xs == [] && ys == [] && x == y
  {
    ItemsClose(v, xs, x, leq);
    ItemsClose(w, ys, y, leq);
    assert Items(v, xs, leq) + [CLOSE_ARR] + x == [CLOSE_ARR] + x;
    assert Items(w, ys, leq) + [CLOSE_ARR] + y == [CLOSE_ARR] + y;
    DropFirst(CLOSE_ARR, x, y);
  }

  /** The rest of an array starts with the closing bracket exactly when nothing is left. */
  lemma ItemsClose(v: Json, xs: seq<Json>, x: Text, leq: Order)
    requires v.Arr? && forall i :: i in xs ==> i in v.items
    ensures (Items(v, xs, leq) + [CLOSE_ARR] + x)[0] == CLOSE_ARR <==> xs == []
  {
    if xs != [] {
      TextStarts(xs[0], leq);
      ItemsUnfold(v, xs, x, leq);
    }
  }

  /** The text of a member's value and everything after it. */
  function AfterKey(v: Json, xs: seq<Member>, x: Text, leq: Order): Text
    requires v.Obj? && xs != [] && forall m :: m in xs ==> m in v.members
  {
    Canonical(xs[0].value, leq) + AfterValue(v, xs, x, leq)
  }

  function AfterValue(v: Json, xs: seq<Member>, x: Text, leq: Order): (t: Text)
    requires v.Obj? && xs != [] && forall m :: m in xs ==> m in v.members
    ensures Terminated(t)
  {
    if |xs| == 1 then [CLOSE_OBJ] + x else [COMMA] + (Members(v, xs[1..], leq) + [CLOSE_OBJ] + x)
  }

  lemma MembersUnfold(v: Json, xs: seq<Member>, x: Text, leq: Order)
    requires v.Obj? && xs != [] && forall m :: m in xs ==> m in v.members
    ensures Members(v, xs, leq) + [CLOSE_OBJ] + x == Quoted(xs[0].key) + ([COLON] + AfterKey(v, xs, x, leq))
  {
    var key, value := Quoted(xs[0].key), Canonical(xs[0].value, leq);
    if |xs| == 1 {
      RegroupLast(key, value, x);
    } else {
      RegroupMore(key, value, Members(v, xs[1..], leq), x);
    }
  }

  lemma RegroupLast(key: Text, value: Text, x: Text)
    ensures key + [COLON] + value + [] + [CLOSE_OBJ] + x == key + ([COLON] + (value + ([CLOSE_OBJ] + x)))
  {
  }

  lemma RegroupMore(key: Text, value: Text, rest: Text, x: Text)
    ensures key + [COLON] + value + ([COMMA] + rest) + [CLOSE_OBJ] + x
         == key + ([COLON] + (value + ([COMMA] + (rest + [CLOSE_OBJ] + x))))
  {
  }

  lemma PairwiseCons(xs: seq<Member>, ys: seq<Member>)
    requires xs != [] && ys != [] && xs[0].key == ys[0].key && Equal(xs[0].value, ys[0].value)
    requires Pairwise(xs[1..], ys[1..])
    ensures Pairwise(xs, ys)
  {
    assert forall i :: 0 < i < |xs| ==> xs[i] == xs[1..][i - 1] && ys[i] == ys[1..][i - 1];
  }

  /** What follows the first value decides whether more members follow, and which. */
  lemma AfterValueSplits(v: Json, w: Json, xs: seq<Member>, ys: seq<Member>, x: Text, y: Text, leq: Order)
    requires v.Obj? && w.Obj? && xs != [] && ys != []
    requires forall m :: m in xs ==> m in v.members
    requires forall m :: m in ys ==> m in w.members
    requires AfterValue(v, xs, x, leq) == AfterValue(w, ys, y, leq)
    ensures |xs| == 1 <==> |ys| == 1
    ensures |xs| == 1 ==> x == y
    ensures |xs| > 1 ==> Members(v, xs[1..], leq) + [CLOSE_OBJ] + x == Members(w, ys[1..], leq) + [CLOSE_OBJ] + y
  {
    assert AfterValue(v, xs, x, leq)[0] == AfterValue(w, ys, y, leq)[0];
    if |xs| == 1 {
      DropFirst(CLOSE_OBJ, x, y);
    } else {
      DropFirst(COMMA, Members(v, xs[1..], leq) + [CLOSE_OBJ] + x, Members(w, ys[1..], leq) + [CLOSE_OBJ] + y);
    }
  }

  lemma FirstKeyAgrees(v: Json, w: Json, xs: seq<Member>, ys: seq<Member>, x: Text, y: Text, leq: Order)
    requires v.Obj? && w.Obj? && xs != [] && ys != []
    requires forall m :: m in xs ==> m in v.members
    requires forall m :: m in ys ==> m in w.members
    requires Members(v, xs, leq) + [CLOSE_OBJ] + x == Members(w, ys, leq) + [CLOSE_OBJ] + y
    ensures xs[0].key == ys[0].key && AfterKey(v, xs, x, leq) == AfterKey(w, ys, y, leq)
  {
    MembersUnfold(v, xs, x, leq);
    MembersUnfold(w, ys, y, leq);
    QuotedIsPrefixFree(xs[0].key, ys[0].key, [COLON] + AfterKey(v, xs, x, leq), [COLON] + AfterKey(w, ys, y, leq));
    DropFirst(COLON, AfterKey(v, xs, x, leq), AfterKey(w, ys, y, leq));
  }

  lemma {:induction false} MembersArePrefixFree(
    v: Json, w: Json, xs: seq<Member>, ys: seq<Member>, x: Text, y: Text, leq: Order)
    requires TotalOrder(leq) && Portable(v) && Portable(w) && v.Obj? && w.Obj?
    requires forall m :: m in xs ==> m in v.members
    requires forall m :: m in ys ==> m in w.members
    requires Members(v, xs, leq) + [CLOSE_OBJ] + x == Members(w, ys, leq) + [CLOSE_OBJ] + y
    ensures Pairwise(xs, ys) && x == y
    decreases v, 0, |xs|
  {
    if xs == [] || ys == [] {
      NoMembersNoOthers(v, w, xs, ys, x, y, leq);
    } else {
      FirstKeyAgrees(v, w, xs, ys, x, y, leq);
      assert xs[0] in v.members && ys[0] in w.members;
      TextIsPrefixFree(xs[0].value, ys[0].value, AfterValue(v, xs, x, leq), AfterValue(w, ys, y, leq), leq);
      AfterValueSplits(v, w, xs, ys, x, y, leq);
      if |xs| > 1 {
        MembersArePrefixFree(v, w, xs[1..], ys[1..], x, y, leq);
        PairwiseCons(xs, ys);
      }
    }
  }

  lemma NoMembersNoOthers(v: Json, w: Json, xs: seq<Member>, ys: seq<Member>, x: Text, y: Text, leq: Order)
    requires v.Obj? && w.Obj?
    requires forall m :: m in xs ==> m in v.members
    requires forall m :: m in ys ==> m in w.members
    requires xs == [] || ys == []
    requires Members(v, xs, leq) + [CLOSE_OBJ] + x == Members(w, ys, leq) + [CLOSE_OBJ] + y
    ensures xs == [] && ys == [] && x == y
  {
    MembersClose(v, xs, x, leq);
    MembersClose(w, ys, y, leq);
    assert Members(v, xs, leq) + [CLOSE_OBJ] + x == [CLOSE_OBJ] + x;
    assert Members(w, ys, leq) + [CLOSE_OBJ] + y == [CLOSE_OBJ] + y;
    DropFirst(CLOSE_OBJ, x, y);
  }

  /** The rest of an object starts with the closing brace exactly when nothing is left. */
  lemma MembersClose(v: Json, xs: seq<Member>, x: Text, leq: Order)
    requires v.Obj? && forall m :: m in xs ==> m in v.members
    ensures (Members(v, xs, leq) + [CLOSE_OBJ] + x)[0] == CLOSE_OBJ <==> xs == []
  {
    if xs != [] {
      MembersUnfold(v, xs, x, leq);
    }
  }

  /** Sorted members agree pairwise in key and value. */
  ghost predicate Pairwise(xs: seq<Member>, ys: seq<Member>) {
    |xs| == |ys| && forall i :: 0 <= i < |xs| ==> xs[i].key == ys[i].key && Equal(xs[i].value, ys[i].value)
  }

  lemma PairedValues(xs: seq<Member>, ys: seq<Member>, m: Member, n: Member)
    requires Pairwise(xs, ys) && DistinctKeys(ys, KeyOf()) && m in xs && n in ys && m.key == n.key
    ensures Equal(m.value, n.value)
  {
    var i :| 0 <= i < |xs| && xs[i] == m;
    var j :| 0 <= j < |ys| && ys[j] == n;
    assert KeyOf()(ys[i]) == KeyOf()(ys[j]);
    assert i == j;
  }

  lemma PairedKeys(v: seq<Member>, w: seq<Member>, leq: Order)
    requires Pairwise(SortedMembers(v, leq), SortedMembers(w, leq))
    ensures multiset(Keys(v, KeyOf())) == multiset(Keys(w, KeyOf()))
  {
    KeysOfSort(v, KeyOf(), leq);
    KeysOfSort(w, KeyOf(), leq);
    assert Keys(SortedMembers(v, leq), KeyOf()) == Keys(SortedMembers(w, leq), KeyOf());
  }

  /** Objects whose sorted members agree pairwise are equal as maps. */
  lemma SortedPairsMeanEqual(v: Json, w: Json, leq: Order)
    requires v.Obj? && w.Obj? && DistinctKeys(w.members, KeyOf())
    requires Pairwise(SortedMembers(v.members, leq), SortedMembers(w.members, leq))
    ensures Equal(v, w)
  {
    var xs, ys := SortedMembers(v.members, leq), SortedMembers(w.members, leq);
    PairedKeys(v.members, w.members, leq);
    DistinctKeysOfPermutation(w.members, ys, KeyOf());
    forall m, n | m in v.members && n in w.members && m.key == n.key ensures Equal(m.value, n.value) {
      PairedValues(xs, ys, m, n);
    }
  }

  /**
   * Canonical text is injective: two portable values have the same text exactly
   * when they are the same value, whatever the key insertion order.
   */
  lemma CanonicalIsInjective(v: Json, w: Json, leq: Order)
    requires TotalOrder(leq) && Portable(v) && Portable(w)
    ensures Canonical(v, leq) == Canonical(w, leq) <==> Equal(v, w)
  {
    if Equal(v, w) {
      EqualText(v, w, leq);
    } else if Canonical(v, leq) == Canonical(w, leq) {
      assert Canonical(v, leq) + [] == Canonical(w, leq) + [];
      TextIsPrefixFree(v, w, [], [], leq);
    }
  }
}
