/**
 * A reader for JSON text without white space (the grammar of sections 2 to 7 of
 * RFC 8259), written to state what canonical text means: reading it back gives
 * the value (packages/tasq-authority/src/index.ts:46-58).
 */
module JsonReader {
  import opened Common
  import opened Sorting
  import opened CanonicalJson

  // ----- reading

  /** How many decimal digits the text starts with. */
  function DigitSpan(t: Text): (k: nat)
    ensures k <= |t|
  {
    if t == [] || !(0x30 <= t[0] <= 0x39) then 0 else 1 + DigitSpan(t[1..])
  }

  function ReadDigits(t: Text): (r: Option<(int, Text)>)
    ensures r.Some? ==> |r.value.1| < |t|
  {
    var k := DigitSpan(t);
    if k == 0 then None else Some((FromDigits(t[..k]), t[k..]))
  }

  function ReadNumber(t: Text): (r: Option<(Json, Text)>)
    ensures r.Some? ==> |r.value.1| < |t|
  {
    if t != [] && t[0] == 0x2D then
      match ReadDigits(t[1..])
      case None => None
      case Some((n, rest)) => Some((Num(-n), rest))
    else
      match ReadDigits(t)
      case None => None
      case Some((n, rest)) => Some((Num(n), rest))
  }

  function ReadValue(t: Text): (r: Option<(Json, Text)>)
    ensures r.Some? ==> |r.value.1| < |t|
    decreases |t|, 0
  {
    if t == [] then None
    else if t[0] == 0x22 then
      match ReadString(t[1..])
      case None => None
      case Some((s, rest)) => Some((Str(s), rest))
    else if t[0] == 0x5B then
      if |t| > 1 && t[1] == 0x5D then Some((Arr([]), t[2..]))
      else
        match ReadItems(t[1..])
        case None => None
        case Some((items, rest)) => Some((Arr(items), rest))
    else if t[0] == 0x7B then
      if |t| > 1 && t[1] == 0x7D then Some((Obj([]), t[2..]))
      else
        match ReadMembers(t[1..])
        case None => None
        case Some((members, rest)) => Some((Obj(members), rest))
    else if StartsWith(t, [0x6E, 0x75, 0x6C, 0x6C]) then Some((Null, t[4..]))
    else if StartsWith(t, [0x74, 0x72, 0x75, 0x65]) then Some((Bool(true), t[4..]))
    else if StartsWith(t, [0x66, 0x61, 0x6C, 0x73, 0x65]) then Some((Bool(false), t[5..]))
    else ReadNumber(t)
  }

  /** Values separated by commas up to the closing bracket, and what follows it. */
  function ReadItems(t: Text): (r: Option<(seq<Json>, Text)>)
    ensures r.Some? ==> |r.value.1| < |t|
    decreases |t|, 1
  {
    match ReadValue(t)
    case None => None
    case Some((v, rest)) =>
      if rest == [] then None
      else if rest[0] == 0x5D then Some(([v], rest[1..]))
      else if rest[0] == 0x2C then
        match ReadItems(rest[1..])
        case None => None
        case Some((more, after)) => Some(([v] + more, after))
      else None
  }

  /** A quoted key, a colon and a value. */
  function ReadMember(t: Text): (r: Option<(Member, Text)>)
    ensures r.Some? ==> |r.value.1| < |t|
    decreases |t|, 1
  {
    if t == [] || t[0] != 0x22 then None
    else
      match ReadString(t[1..])
      case None => None
      case Some((key, rest)) =>
        if rest == [] || rest[0] != 0x3A then None
        else
          match ReadValue(rest[1..])
          case None => None
          case Some((v, after)) => Some((Member(key, v), after))
  }

  /** Members separated by commas up to the closing brace, and what follows it. */
  function ReadMembers(t: Text): (r: Option<(seq<Member>, Text)>)
    ensures r.Some? ==> |r.value.1| < |t|
    decreases |t|, 2
  {
    match ReadMember(t)
    case None => None
    case Some((m, rest)) =>
      if rest == [] then None
      else if rest[0] == 0x7D then Some(([m], rest[1..]))
      else if rest[0] == 0x2C then
        match ReadMembers(rest[1..])
        case None => None
        case Some((more, after)) => Some(([m] + more, after))
      else None
  }

  // ----- the simple values

  lemma {:induction false} SpanOfDigits(digits: Text, x: Text)
    requires forall i :: 0 <= i < |digits| ==> 0x30 <= digits[i] <= 0x39
    requires x == [] || !(0x30 <= x[0] <= 0x39)
    ensures DigitSpan(digits + x) == |digits|
  {
    if digits == [] {
      assert digits + x == x;
    } else {
      SpanOfDigits(digits[1..], x);
      assert (digits + x)[1..] == digits[1..] + x;
    }
  }

  lemma DigitsRead(n: nat, x: Text)
    requires Terminated(x)
    ensures ReadDigits(Digits(n) + x) == Some((n, x))
  {
    var digits := Digits(n);
    SpanOfDigits(digits, x);
    DigitsReadBack(n);
    assert (digits + x)[..|digits|] == digits && (digits + x)[|digits|..] == x;
  }

  lemma NegativeRead(digits: Text, n: int, x: Text)
    requires ReadDigits(digits + x) == Some((n, x))
    ensures ReadNumber([0x2D] + digits + x) == Some((Num(-n), x))
  {
    assert ([0x2D] + digits + x)[1..] == digits + x;
  }

  lemma PositiveRead(t: Text, n: nat, x: Text)
    requires t != [] && t[0] != 0x2D && ReadDigits(t) == Some((n, x))
    ensures ReadNumber(t) == Some((Num(n), x))
  {
  }

  /** Text that starts like a number is read as one. */
  lemma ReadAsNumber(t: Text)
    requires t != [] && (t[0] == 0x2D || 0x30 <= t[0] <= 0x39)
    ensures ReadValue(t) == ReadNumber(t)
  {
  }

  lemma NumberIsRead(n: int, x: Text)
    requires Terminated(x)
    ensures ReadValue(Decimal(n) + x) == Some((Num(n), x))
  {
    if n < 0 {
      NegativeIsRead(n, x);
    } else {
      PositiveIsRead(n, x);
    }
  }

  lemma NegativeIsRead(n: int, x: Text)
    requires Terminated(x) && n < 0
    ensures ReadValue(Decimal(n) + x) == Some((Num(n), x))
  {
    DigitsRead(-n, x);
    NegativeRead(Digits(-n), -n, x);
    assert ([0x2D] + Digits(-n) + x)[0] == 0x2D;
    ReadAsNumber([0x2D] + Digits(-n) + x);
  }

  lemma PositiveIsRead(m: nat, x: Text)
    requires Terminated(x)
    ensures ReadValue(Decimal(m) + x) == Some((Num(m), x))
  {
    var t := Digits(m) + x;
    DigitsRead(m, x);
    assert t[0] == Digits(m)[0];
    PositiveRead(t, m, x);
    ReadAsNumber(t);
  }

  lemma StringIsRead(s: Text, x: Text)
    ensures ReadValue(Quoted(s) + x) == Some((Str(s), x))
  {
    StringReadsBack(s, x);
    assert (Quoted(s) + x)[1..] == Ending(s, x);
  }

  lemma ConstantIsRead(v: Json, x: Text, leq: Order)
    requires v.Null? || v.Bool?
    ensures ReadValue(Canonical(v, leq) + x) == Some((v, x))
  {
    var text := Canonical(v, leq);
    assert (text + x)[..|text|] == text && (text + x)[|text|..] == x;
  }

  // ----- arrays

  /** Pairwise the same values. */
  ghost predicate AllEqual(xs: seq<Json>, ws: seq<Json>) {
    |xs| == |ws| && forall i :: 0 <= i < |xs| ==> Equal(xs[i], ws[i])
  }

  lemma AllEqualCons(xs: seq<Json>, w: Json, ws: seq<Json>)
    requires xs != [] && Equal(xs[0], w) && AllEqual(xs[1..], ws)
    ensures AllEqual(xs, [w] + ws)
  {
    var all := [w] + ws;
    forall i | 0 <= i < |xs| ensures Equal(xs[i], all[i]) {
      assert i > 0 ==> xs[i] == xs[1..][i - 1] && all[i] == ws[i - 1];
    }
  }

  lemma LastItemRead(t: Text, w: Json, x: Text)
    requires ReadValue(t) == Some((w, [0x5D] + x))
    ensures ReadItems(t) == Some(([w], x))
  {
    assert ([0x5D] + x)[1..] == x;
  }

  lemma ItemRead(t: Text, w: Json, rest: Text, ws: seq<Json>, x: Text)
    requires ReadValue(t) == Some((w, [0x2C] + rest)) && ReadItems(rest) == Some((ws, x))
    ensures ReadItems(t) == Some(([w] + ws, x))
  {
    assert ([0x2C] + rest)[1..] == rest;
  }

  lemma {:induction false} ItemsReadBack(v: Json, xs: seq<Json>, x: Text, leq: Order) returns (ws: seq<Json>)
    requires TotalOrder(leq) && Portable(v) && v.Arr? && xs != [] && forall i :: i in xs ==> i in v.items
    ensures ReadItems(Items(v, xs, leq) + [CLOSE_ARR] + x) == Some((ws, x)) && AllEqual(xs, ws)
    decreases v, 0, |xs|
  {
    ItemsUnfold(v, xs, x, leq);
    assert xs[0] in v.items;
    if |xs| == 1 {
      var w := ReadsBack(xs[0], [CLOSE_ARR] + x, leq);
      LastItemRead(Items(v, xs, leq) + [CLOSE_ARR] + x, w, x);
      ws := [w];
    } else {
      var rest := Items(v, xs[1..], leq) + [CLOSE_ARR] + x;
      var w := ReadsBack(xs[0], [COMMA] + rest, leq);
      var more := ItemsReadBack(v, xs[1..], x, leq);
      ItemRead(Items(v, xs, leq) + [CLOSE_ARR] + x, w, rest, more, x);
      AllEqualCons(xs, w, more);
      ws := [w] + more;
    }
  }

  lemma ArrayRead(t: Text, x: Text, ws: seq<Json>)
    requires t != [] && t[0] != 0x5D && ReadItems(t) == Some((ws, x))
    ensures ReadValue([0x5B] + t) == Some((Arr(ws), x))
  {
    assert ([0x5B] + t)[1..] == t;
  }

  // ----- objects

  lemma MemberRead(key: Text, value: Text, w: Json, after: Text)
    requires ReadValue(value) == Some((w, after))
    ensures ReadMember(Quoted(key) + ([0x3A] + value)) == Some((Member(key, w), after))
  {
    var t := Quoted(key) + ([0x3A] + value);
    StringReadsBack(key, [0x3A] + value);
    assert t[1..] == Ending(key, [0x3A] + value) && ([0x3A] + value)[1..] == value;
  }

  lemma LastMemberRead(t: Text, m: Member, x: Text)
    requires ReadMember(t) == Some((m, [0x7D] + x))
    ensures ReadMembers(t) == Some(([m], x))
  {
    assert ([0x7D] + x)[1..] == x;
  }

  lemma MoreMembersRead(t: Text, m: Member, rest: Text, ms: seq<Member>, x: Text)
    requires ReadMember(t) == Some((m, [0x2C] + rest)) && ReadMembers(rest) == Some((ms, x))
    ensures ReadMembers(t) == Some(([m] + ms, x))
  {
    assert ([0x2C] + rest)[1..] == rest;
  }

  lemma PairwiseWith(xs: seq<Member>, w: Json, ms: seq<Member>)
    requires xs != [] && Equal(xs[0].value, w) && Pairwise(xs[1..], ms)
    ensures Pairwise(xs, [Member(xs[0].key, w)] + ms)
  {
    var all := [Member(xs[0].key, w)] + ms;
    assert all[1..] == ms;
    PairwiseCons(xs, all);
  }

  lemma {:induction false} MembersReadBack(v: Json, xs: seq<Member>, x: Text, leq: Order) returns (ms: seq<Member>)
    requires TotalOrder(leq) && Portable(v) && v.Obj? && xs != [] && forall m :: m in xs ==> m in v.members
    ensures ReadMembers(Members(v, xs, leq) + [CLOSE_OBJ] + x) == Some((ms, x)) && Pairwise(xs, ms)
    decreases v, 0, |xs|
  {
    MembersUnfold(v, xs, x, leq);
    assert xs[0] in v.members;
    var t, after := Members(v, xs, leq) + [CLOSE_OBJ] + x, AfterValue(v, xs, x, leq);
    var w := ReadsBack(xs[0].value, after, leq);
    MemberRead(xs[0].key, AfterKey(v, xs, x, leq), w, after);
    if |xs| == 1 {
      LastMemberRead(t, Member(xs[0].key, w), x);
      ms := [Member(xs[0].key, w)];
      PairwiseWith(xs, w, []);
      assert [Member(xs[0].key, w)] + [] == ms;
    } else {
      var rest := Members(v, xs[1..], leq) + [CLOSE_OBJ] + x;
      var more := MembersReadBack(v, xs[1..], x, leq);
      MoreMembersRead(t, Member(xs[0].key, w), rest, more, x);
      PairwiseWith(xs, w, more);
      ms := [Member(xs[0].key, w)] + more;
    }
  }

  lemma ObjectRead(t: Text, x: Text, ms: seq<Member>)
    requires t != [] && t[0] != 0x7D && ReadMembers(t) == Some((ms, x))
    ensures ReadValue([0x7B] + t) == Some((Obj(ms), x))
  {
    assert ([0x7B] + t)[1..] == t;
  }

  /** Members that agree pairwise with the sorted members of an object make an equal object. */
  lemma PairedWithSorted(v: Json, ms: seq<Member>, leq: Order)
    requires TotalOrder(leq) && Portable(v) && v.Obj? && Pairwise(SortedMembers(v.members, leq), ms)
    ensures Equal(v, Obj(ms))
  {
    var xs := SortedMembers(v.members, leq);
    var kx, km := Keys(xs, KeyOf()), Keys(ms, KeyOf());
    assert kx == km;
    KeysOfSort(v.members, KeyOf(), leq);
    assert multiset(kx) == multiset(Keys(v.members, KeyOf()));
    DistinctKeysOfPermutation(v.members, xs, KeyOf());
    forall i, j | 0 <= i < j < |ms| ensures KeyOf()(ms[i]) != KeyOf()(ms[j]) {
      assert KeyOf()(xs[i]) != KeyOf()(xs[j]) && kx[i] == km[i] && kx[j] == km[j];
    }
    forall m, n | m in v.members && n in ms && m.key == n.key ensures Equal(m.value, n.value) {
      PairedValues(xs, ms, m, n);
    }
  }

  // ----- the round trip

  /**
   * Canonical text is JSON text for its value: reading it, whatever follows it
   * that does not continue a number, gives an equal value and what follows.
   */
  lemma {:induction false} ReadsBack(v: Json, x: Text, leq: Order) returns (w: Json)
    requires TotalOrder(leq) && Portable(v) && Terminated(x)
    ensures ReadValue(Canonical(v, leq) + x) == Some((w, x)) && Equal(v, w)
    decreases v, 1, 0
  {
    match v
    case Num(n) =>
      NumberIsRead(n, x);
      w := v;
    case Str(s) =>
      StringIsRead(s, x);
      w := v;
    case Arr(items) => w := ArrayReadsBack(v, x, leq);
    case Obj(members) => w := ObjectReadsBack(v, x, leq);
    case _ =>
      ConstantIsRead(v, x, leq);
      w := v;
  }

  lemma {:induction false} ArrayReadsBack(v: Json, x: Text, leq: Order) returns (w: Json)
    requires TotalOrder(leq) && Portable(v) && v.Arr?
    ensures ReadValue(Canonical(v, leq) + x) == Some((w, x)) && Equal(v, w)
    decreases v, 0, |v.items| + 1
  {
    var t := Items(v, v.items, leq) + [CLOSE_ARR] + x;
    assert Canonical(v, leq) + x == [0x5B] + t;
    ItemsClose(v, v.items, x, leq);
    if v.items == [] {
      assert t == [CLOSE_ARR] + x && ([0x5B] + t)[2..] == x;
      w := Arr([]);
    } else {
      var ws := ItemsReadBack(v, v.items, x, leq);
      ArrayRead(t, x, ws);
      w := Arr(ws);
    }
  }

  lemma {:induction false} ObjectReadsBack(v: Json, x: Text, leq: Order) returns (w: Json)
    requires TotalOrder(leq) && Portable(v) && v.Obj?
    ensures ReadValue(Canonical(v, leq) + x) == Some((w, x)) && Equal(v, w)
    decreases v, 0, |v.members| + 1
  {
    var xs := SortedMembers(v.members, leq);
    var t := Members(v, xs, leq) + [CLOSE_OBJ] + x;
    assert Canonical(v, leq) + x == [0x7B] + t;
    MembersClose(v, xs, x, leq);
    if xs == [] {
      assert t == [CLOSE_OBJ] + x && ([0x7B] + t)[2..] == x;
      w := Obj([]);
      PairedWithSorted(v, [], leq);
    } else {
      var ms := MembersReadBack(v, xs, x, leq);
      ObjectRead(t, x, ms);
      PairedWithSorted(v, ms, leq);
      w := Obj(ms);
    }
  }
}
