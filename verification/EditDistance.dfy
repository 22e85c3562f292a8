/**
 * Levenshtein distance and the nearest-command suggestion
 * (packages/tasq-cli/src/index.ts:197-225). Words are compared and counted in
 * UTF-16 code units.
 */
module EditDistance {
  import opened Common

  // ----- edit scripts: what a distance is the least cost of

  datatype Edit = Keep | Substitute(c: Unit) | Insert(c: Unit) | Delete

  function Cost(script: seq<Edit>): nat {
    if script == [] then 0 else (if script[0].Keep? then 0 else 1) + Cost(script[1..])
  }

  /** The word a script turns `a` into, or None when it does not fit `a`. */
  function Edited(script: seq<Edit>, a: Text): Option<Text> {
    if script == [] then if a == [] then Some([]) else None
    else
      match script[0]
      case Insert(c) => Prepend(c, Edited(script[1..], a))
      case Delete => if a == [] then None else Edited(script[1..], a[1..])
      case Keep => if a == [] then None else Prepend(a[0], Edited(script[1..], a[1..]))
      case Substitute(c) => if a == [] then None else Prepend(c, Edited(script[1..], a[1..]))
  }

  function Prepend(c: Unit, rest: Option<Text>): Option<Text> {
    match rest
    case None => None
    case Some(s) => Some([c] + s)
  }

  // ----- the distance recurrence

  function Min(x: nat, y: nat): nat {
    if x <= y then x else y
  }

  function Step(same: bool): nat {
    if same then 0 else 1
  }

  /** Distance by the first letters. */
  function Distance(a: Text, b: Text): nat {
    if a == [] then |b|
    else if b == [] then |a|
    else Min(Min(Distance(a[1..], b) + 1, Distance(a, b[1..]) + 1),
             Distance(a[1..], b[1..]) + Step(a[0] == b[0]))
  }

  /** No script from `a` to `b` is cheaper than the distance. */
  lemma {:induction false} NoCheaperScript(script: seq<Edit>, a: Text, b: Text)
    requires Edited(script, a) == Some(b)
    ensures Distance(a, b) <= Cost(script)
  {
    if script != [] {
      var rest := script[1..];
      match script[0]
      case Insert(c) =>
        var s := Edited(rest, a).value;
        assert b == [c] + s && b[1..] == s;
        NoCheaperScript(rest, a, s);
      case Delete =>
        NoCheaperScript(rest, a[1..], b);
        DropFirst(a, b);
      case Keep =>
        var s := Edited(rest, a[1..]).value;
        assert b == [a[0]] + s && b[1..] == s;
        NoCheaperScript(rest, a[1..], s);
      case Substitute(c) =>
        var s := Edited(rest, a[1..]).value;
        assert b == [c] + s && b[1..] == s;
        NoCheaperScript(rest, a[1..], s);
    }
  }

  lemma DropFirst(a: Text, b: Text)
    requires a != []
    ensures Distance(a, b) <= Distance(a[1..], b) + 1
  {
    if b == [] && a[1..] == [] {}
  }

  /** Some script of exactly that cost exists. */
  lemma {:induction false} CheapestScript(a: Text, b: Text) returns (script: seq<Edit>)
    ensures Edited(script, a) == Some(b) && Cost(script) == Distance(a, b)
    decreases |a| + |b|
  {
    assert b != [] ==> b == [b[0]] + b[1..];
    if a == [] {
      script := [];
      if b != [] {
        var rest := CheapestScript(a, b[1..]);
        script := [Insert(b[0])] + rest;
        assert script[1..] == rest;
      }
    } else if b == [] || Distance(a, b) == Distance(a[1..], b) + 1 {
      var rest := CheapestScript(a[1..], b);
      script := [Delete] + rest;
      assert script[1..] == rest;
    } else if Distance(a, b) == Distance(a, b[1..]) + 1 {
      var rest := CheapestScript(a, b[1..]);
      script := [Insert(b[0])] + rest;
      assert script[1..] == rest;
    } else {
      var rest := CheapestScript(a[1..], b[1..]);
      script := [if a[0] == b[0] then Keep else Substitute(b[0])] + rest;
      assert script[1..] == rest;
    }
  }

  // ----- it is a metric

  lemma {:induction false} Symmetric(a: Text, b: Text)
    ensures Distance(a, b) == Distance(b, a)
    decreases |a| + |b|
  {
    if a != [] && b != [] {
      Symmetric(a[1..], b);
      Symmetric(a, b[1..]);
      Symmetric(a[1..], b[1..]);
    }
  }

  lemma {:induction false} ZeroExactlyWhenEqual(a: Text, b: Text)
    ensures Distance(a, b) == 0 <==> a == b
    decreases |a| + |b|
  {
    if a != [] && b != [] {
      ZeroExactlyWhenEqual(a[1..], b[1..]);
      assert a == [a[0]] + a[1..] && b == [b[0]] + b[1..];
    }
  }

  /** One letter more or less on either side costs at most one. */
  lemma {:induction false} OneLetter(a: Text, b: Text)
    ensures b != [] ==> Distance(a, b) <= Distance(a, b[1..]) + 1
    ensures a != [] ==> Distance(a, b) <= Distance(a[1..], b) + 1
  {
  }

  lemma {:induction false} Triangle(a: Text, b: Text, c: Text)
    ensures Distance(a, c) <= Distance(a, b) + Distance(b, c)
    decreases |a| + |b| + |c|
  {
    OneLetter(a, c);
    if a != [] && Distance(a, b) == Distance(a[1..], b) + 1 {
      Triangle(a[1..], b, c);
    } else if c != [] && Distance(b, c) == Distance(b, c[1..]) + 1 {
      Triangle(a, b, c[1..]);
    } else if b != [] {
      Triangle(a, b[1..], c);
      if a != [] { Triangle(a[1..], b[1..], c); }
      if c != [] { Triangle(a, b[1..], c[1..]); }
      if a != [] && c != [] { Triangle(a[1..], b[1..], c[1..]); }
    }
  }

  // ----- the row-by-row program computes it

  /** Distance by the last letters: the recurrence the rows fill in. */
  function Cell(a: Text, b: Text, i: nat, j: nat): nat
    requires i <= |a| && j <= |b|
  {
    if i == 0 then j
    else if j == 0 then i
    else Min(Min(Cell(a, b, i - 1, j) + 1, Cell(a, b, i, j - 1) + 1),
             Cell(a, b, i - 1, j - 1) + Step(a[i - 1] == b[j - 1]))
  }

  function Reverse(s: Text): (r: Text)
    ensures |r| == |s|
    ensures forall k :: 0 <= k < |s| ==> r[k] == s[|s| - 1 - k]
  {
    if s == [] then [] else [s[|s| - 1]] + Reverse(s[..|s| - 1])
  }

  lemma {:induction false} CellIsReversedDistance(a: Text, b: Text, i: nat, j: nat)
    requires i <= |a| && j <= |b|
    ensures Cell(a, b, i, j) == Distance(Reverse(a[..i]), Reverse(b[..j]))
  {
    if i > 0 && j > 0 {
      var p, q := Reverse(a[..i]), Reverse(b[..j]);
      assert a[..i][..i - 1] == a[..i - 1] && b[..j][..j - 1] == b[..j - 1];
      assert p[1..] == Reverse(a[..i - 1]) && q[1..] == Reverse(b[..j - 1]);
      CellIsReversedDistance(a, b, i - 1, j);
      CellIsReversedDistance(a, b, i, j - 1);
      CellIsReversedDistance(a, b, i - 1, j - 1);
    }
  }

  /** Reading both words backwards does not change their distance. */
  lemma ReverseKeepsDistance(a: Text, b: Text)
    ensures Distance(Reverse(a), Reverse(b)) == Distance(a, b)
  {
    ReverseNoCheaper(a, b);
    ReverseNoCheaper(Reverse(a), Reverse(b));
    assert Reverse(Reverse(a)) == a && Reverse(Reverse(b)) == b;
  }

  lemma ReverseNoCheaper(a: Text, b: Text)
    ensures Distance(Reverse(a), Reverse(b)) <= Distance(a, b)
  {
    var script := CheapestScript(a, b);
    ReverseScript(script, a, b);
    NoCheaperScript(Reversed(script), Reverse(a), Reverse(b));
  }

  function Reversed(script: seq<Edit>): seq<Edit> {
    if script == [] then [] else Reversed(script[1..]) + [script[0]]
  }

  /** The first edit handles at most one letter of each word; the rest handles the rest. */
  lemma FirstEdit(script: seq<Edit>, a: Text, b: Text) returns (x: Text, y: Text)
    requires script != [] && Edited(script, a) == Some(b)
    ensures |x| <= 1 && |y| <= 1 && |x| <= |a| && |y| <= |b|
    ensures a == x + a[|x|..] && b == y + b[|y|..]
    ensures Edited([script[0]], x) == Some(y)
    ensures Edited(script[1..], a[|x|..]) == Some(b[|y|..])
  {
    var e := script[0];
    x := if e.Insert? then [] else [a[0]];
    y := if e.Delete? then [] else [b[0]];
    assert [e][1..] == [] && Edited([], []) == Some([]);
    assert x != [] ==> x[1..] == [];
    assert y != [] ==> y == [b[0]] + [];
    assert a[0..] == a && b[0..] == b;
  }

  lemma ReverseFront(x: Text, s: Text)
    requires |x| <= 1
    ensures Reverse(x + s) == Reverse(s) + x
  {
  }

  lemma {:induction false} ReverseScript(script: seq<Edit>, a: Text, b: Text)
    requires Edited(script, a) == Some(b)
    ensures Edited(Reversed(script), Reverse(a)) == Some(Reverse(b))
    ensures Cost(Reversed(script)) == Cost(script)
  {
    if script != [] {
      var x, y := FirstEdit(script, a, b);
      ReverseScript(script[1..], a[|x|..], b[|y|..]);
      EditedAtEnd(Reversed(script[1..]), script[0], Reverse(a[|x|..]), Reverse(b[|y|..]), x, y);
      ReverseFront(x, a[|x|..]);
      ReverseFront(y, b[|y|..]);
      assert [script[0]][1..] == [];
    }
  }

  /** Adding one edit at the end of a script handles one more letter at the end of the words. */
  lemma {:induction false} EditedAtEnd(script: seq<Edit>, e: Edit, a: Text, b: Text, x: Text, y: Text)
    requires Edited(script, a) == Some(b) && Edited([e], x) == Some(y)
    ensures Edited(script + [e], a + x) == Some(b + y)
    ensures Cost(script + [e]) == Cost(script) + Cost([e])
  {
    if script == [] {
      assert script + [e] == [e] && a + x == x && b + y == y;
    } else {
      assert (script + [e])[1..] == script[1..] + [e];
      var a' := if script[0].Insert? then a else a[1..];
      var b' := if script[0].Delete? then b else b[1..];
      EditedAtEnd(script[1..], e, a', b', x, y);
      assert !script[0].Insert? ==> (a + x)[1..] == a[1..] + x;
      assert !script[0].Delete? ==> b == [b[0]] + b' && b + y == [b[0]] + (b' + y);
    }
  }

  lemma CellIsDistance(a: Text, b: Text)
    ensures Cell(a, b, |a|, |b|) == Distance(a, b)
  {
    CellIsReversedDistance(a, b, |a|, |b|);
    assert a[..|a|] == a && b[..|b|] == b;
    ReverseKeepsDistance(a, b);
  }

  method NextRow(a: Text, b: Text, i: nat, previous: array<nat>) returns (row: array<nat>)
    requires 1 <= i <= |a| && previous.Length == |b| + 1
    requires forall j {:trigger previous[j]} :: 0 <= j <= |b| ==> previous[j] == Cell(a, b, i - 1, j)
    ensures row.Length == |b| + 1
    ensures forall j {:trigger row[j]} :: 0 <= j <= |b| ==> row[j] == Cell(a, b, i, j)
  {
    row := new nat[|b| + 1];
    row[0] := i;
    for j := 1 to |b| + 1
      invariant forall k {:trigger row[k]} :: 0 <= k < j ==> row[k] == Cell(a, b, i, k)
    {
      row[j] := Min(Min(previous[j] + 1, row[j - 1] + 1),
                    previous[j - 1] + (if a[i - 1] == b[j - 1] then 0 else 1));
    }
  }

  method ComputeDistance(a: Text, b: Text) returns (d: nat)
    ensures d == Distance(a, b)
  {
    var previous := new nat[|b| + 1](j => j);
    for i := 1 to |a| + 1
      invariant previous.Length == |b| + 1
      invariant forall j {:trigger previous[j]} :: 0 <= j <= |b| ==> previous[j] == Cell(a, b, i - 1, j)
    {
      previous := NextRow(a, b, i, previous);
    }
    d := previous[|b|];
    CellIsDistance(a, b);
  }

  // ----- the suggestion

  lemma {:induction false} LengthBound(a: Text, b: Text)
    ensures |b| <= |a| + Distance(a, b) && |a| <= |b| + Distance(a, b)
    decreases |a| + |b|
  {
    if a != [] && b != [] {
      LengthBound(a[1..], b);
      LengthBound(a, b[1..]);
      LengthBound(a[1..], b[1..]);
    }
  }

  /** The prefix shortcut by length difference is the distance. */
  lemma {:induction false} PrefixDistance(a: Text, b: Text)
    requires StartsWith(b, a)
    ensures Distance(a, b) == Distance(b, a) == |b| - |a|
  {
    LengthBound(a, b);
    Symmetric(a, b);
    if a != [] {
      assert b[0] == b[..|a|][0];
      assert b[1..][..|a| - 1] == b[..|a|][1..];
      PrefixDistance(a[1..], b[1..]);
    }
  }

  function Budget(typed: Text): nat {
    if |typed| <= 4 then 1 else if |typed| <= 7 then 2 else 3
  }

  /** The prefix shortcut, or else the row program. */
  method CommandDistance(typed: Text, candidate: Text) returns (d: nat)
    ensures d == Distance(typed, candidate)
  {
    if StartsWith(candidate, typed) {
      PrefixDistance(typed, candidate);
      return |candidate| - |typed|;
    }
    if StartsWith(typed, candidate) {
      PrefixDistance(candidate, typed);
      return |typed| - |candidate|;
    }
    d := ComputeDistance(typed, candidate);
  }

  /** Of the first n commands, m is the first at the least distance within the budget, if there is one. */
  ghost predicate Nearest(typed: Text, known: seq<Text>, n: nat, distance: nat, m: Option<nat>)
    requires n <= |known|
  {
    && (forall k :: 0 <= k < n ==> distance <= Distance(typed, known[k]))
    && (m.None? ==> distance == Budget(typed) + 1)
    && (m.Some? ==>
          && m.value < n && distance == Distance(typed, known[m.value]) <= Budget(typed)
          && forall k :: 0 <= k < m.value ==> distance < Distance(typed, known[k]))
  }

  lemma NearestStep(typed: Text, known: seq<Text>, n: nat, best: nat, m: Option<nat>, distance: nat)
    requires n < |known| && Nearest(typed, known, n, best, m) && distance == Distance(typed, known[n])
    ensures if distance < best then Nearest(typed, known, n + 1, distance, Some(n))
      else Nearest(typed, known, n + 1, best, m)
  {
  }

  /** The first known command at least distance, when that distance is within the budget. */
  method NearestCommand(typed: Text, known: seq<Text>) returns (best: Option<Text>)
    ensures var budget := if |typed| <= 4 then 1 else if |typed| <= 7 then 2 else 3;
      best.None? <==> forall k :: 0 <= k < |known| ==> Distance(typed, known[k]) > budget
    ensures var budget := if |typed| <= 4 then 1 else if |typed| <= 7 then 2 else 3;
      best.Some? ==> exists m ::
      && 0 <= m < |known| && best.value == known[m]
      && Distance(typed, known[m]) <= budget
      && (forall k :: 0 <= k < |known| ==> Distance(typed, known[m]) <= Distance(typed, known[k]))
      && (forall k :: 0 <= k < m ==> Distance(typed, known[m]) < Distance(typed, known[k]))
  {
    best := None;
    var bestDistance: nat := Budget(typed) + 1;
    ghost var m: Option<nat> := None;
    for i := 0 to |known|
      invariant Nearest(typed, known, i, bestDistance, m)
      invariant best == if m.Some? then Some(known[m.value]) else None
    {
      var distance := CommandDistance(typed, known[i]);
      NearestStep(typed, known, i, bestDistance, m, distance);
      if distance < bestDistance {
        best, bestDistance := Some(known[i]), distance;
        m := Some(i);
      }
    }
    if m.Some? {
      assert known[m.value] == best.value;
    }
  }
}
