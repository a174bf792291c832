/** The map from knowledge ids to the 63-bit numbers of the vector index, with its fallback when two
    ids share their leading digits. */
module KnowledgeIds {
  import opened Basics
  import opened Outcomes
  import opened Stripping
  import opened TextDb

  const SIGN_BIT := 0x8000_0000_0000_0000

  function DigitValue(c: char): (d: Option<int>)
    ensures d.Some? ==> 0 <= d.value < 16
  {
    if '0' <= c <= '9' then Some(c as int - '0' as int)
    else if 'a' <= c <= 'f' then Some(c as int - 'a' as int + 10)
    else None
  }

  /** The number that lower-case hexadecimal digits spell. */
  function ParseHex(s: string): (n: Option<int>)
    ensures n.Some? ==> n.value >= 0
    decreases |s|
  {
    if s == [] then None
    else
      match DigitValue(s[|s| - 1])
      case None => None
      case Some(d) =>
        if |s| == 1 then Some(d)
        else match ParseHex(s[..|s| - 1]) case None => None case Some(high) => Some(high * 16 + d)
  }

  function Slot(digits: string): Option<int> {
    match ParseHex(digits) case None => None case Some(n) => Some(n % SIGN_BIT)
  }

  /** The number of the first sixteen digits, and that of the last sixteen, without their top bits. */
  function Head(kid: string): Option<int> { Slot(if |kid| > 16 then kid[..16] else kid) }

  function Tail(kid: string): Option<int> { Slot(if |kid| > 16 then kid[|kid| - 16..] else kid) }

  // ----- which numbers these are -----

  function Pow16(k: nat): (p: int)
    ensures p > 0
  {
    if k == 0 then 1 else 16 * Pow16(k - 1)
  }

  function HexDigitOf(d: int): char
    requires 0 <= d < 16
  {
    if d < 10 then '0' + d as char else 'a' + (d - 10) as char
  }

  /** A number in `k` lower-case hexadecimal digits. */
  function HexText(n: nat, k: nat): (t: string)
    ensures |t| == k
  {
    if k == 0 then [] else HexText(n / 16, k - 1) + [HexDigitOf(n % 16)]
  }

  lemma DigitReads(c: char, d: int)
    requires 0 <= d < 16
    ensures DigitValue(c) == Some(d) <==> c == HexDigitOf(d)
  {
  }

  lemma SameLast(a: string, c: char, b: string, d: char)
    requires |a| == |b|
    ensures a + [c] == b + [d] <==> a == b && c == d
  {
    if a + [c] == b + [d] {
      assert a == (a + [c])[..|a|] && b == (b + [d])[..|b|];
      assert (a + [c])[|a|] == c && (b + [d])[|b|] == d;
    }
  }

  lemma LastDigitReads(front: string, c: char, n: nat)
    requires front != []
    ensures ParseHex(front + [c]) == Some(n) <==> ParseHex(front) == Some(n / 16) && c == HexDigitOf(n % 16)
  {
    assert (front + [c])[..|front|] == front;
    DigitReads(c, n % 16);
  }

  /** The digits of a number spell that number, and nothing else spells it in as many digits. */
  lemma {:induction false} ParseHexReads(s: string, n: nat)
    requires s != []
    ensures ParseHex(s) == Some(n) <==> n < Pow16(|s|) && s == HexText(n, |s|)
    decreases |s|
  {
    var front, last := s[..|s| - 1], s[|s| - 1];
    assert s == front + [last];
    if |s| == 1 {
      DigitReads(last, n % 16);
      assert HexText(n / 16, 0) == [];
    } else {
      ParseHexReads(front, n / 16);
      LastDigitReads(front, last, n);
      SameLast(front, last, HexText(n / 16, |front|), HexDigitOf(n % 16));
    }
  }

  /** The number without its last `k` digits, and those digits. */
  function High(n: nat, k: nat): nat { if k == 0 then n else High(n / 16, k - 1) }

  function Low(n: nat, k: nat): nat { if k == 0 then 0 else 16 * Low(n / 16, k - 1) + n % 16 }

  lemma {:induction false} HexTextSplits(n: nat, a: nat, b: nat)
    ensures HexText(n, a + b) == HexText(High(n, b), a) + HexText(Low(n, b), b)
    decreases b
  {
    if b > 0 {
      HexTextSplits(n / 16, a, b - 1);
      var m := Low(n, b);
      assert m % 16 == n % 16 && m / 16 == Low(n / 16, b - 1);
      Regroup(HexText(High(n, b), a), HexText(m / 16, b - 1), [HexDigitOf(n % 16)]);
    }
  }

  lemma {:induction false} HighAndLow(n: nat, k: nat)
    ensures n == Pow16(k) * High(n, k) + Low(n, k) && Low(n, k) < Pow16(k)
    decreases k
  {
    if k > 0 {
      HighAndLow(n / 16, k - 1);
      TimesSixteen(Pow16(k - 1), High(n, k));
    }
  }

  lemma TimesSixteen(p: int, q: int)
    ensures 16 * p * q == 16 * (p * q)
  {
  }

  lemma DigitsMeaning(n: nat, k: nat)
    ensures High(n, k) == n / Pow16(k) && Low(n, k) == n % Pow16(k) < Pow16(k)
  {
    HighAndLow(n, k);
    DivModUnique(n, Pow16(k), High(n, k), Low(n, k));
  }

  lemma Pow16Of16()
    ensures Pow16(16) == 0x1_0000_0000_0000_0000
  {
    assert Pow16(4) == 0x1_0000;
    assert Pow16(8) == 0x1_0000_0000;
    assert Pow16(12) == 0x1_0000_0000_0000;
  }

  lemma {:induction false} PowAdds(a: nat, b: nat)
    ensures Pow16(a + b) == Pow16(a) * Pow16(b)
    decreases a
  {
    if a > 0 { PowAdds(a - 1, b); }
  }

  lemma TimesMonotone(a: nat, b: nat, d: nat)
    requires a <= b
    ensures a * d <= b * d
  {
    ProductIsNat(b - a, d);
  }

  lemma QuotientBelow(q: nat, p: nat, r: nat, m: nat)
    requires p * q + r < m * p
    ensures q < m
  {
    if m <= q { TimesMonotone(m, q, p); }
  }

  lemma HighFits(n: nat, a: nat, b: nat)
    requires n < Pow16(a + b)
    ensures High(n, b) < Pow16(a)
  {
    HighAndLow(n, b);
    PowAdds(a, b);
    QuotientBelow(High(n, b), Pow16(b), Low(n, b), Pow16(a));
  }

  lemma SlotOfDigits(s: string, n: nat, w: nat)
    requires w > 0 && n < Pow16(w) && s == HexText(n, w)
    ensures Slot(s) == Some(n % SIGN_BIT)
  {
    ParseHexReads(s, n);
  }

  lemma FirstDigits(n: nat, w: nat, b: nat)
    ensures HexText(n, w + b)[..w] == HexText(High(n, b), w)
  {
    HexTextSplits(n, w, b);
  }

  lemma LastDigits(n: nat, a: nat, w: nat)
    ensures HexText(n, a + w)[a..] == HexText(Low(n, w), w)
  {
    HexTextSplits(n, a, w);
    Behind(HexText(High(n, w), a), HexText(Low(n, w), w));
  }

  lemma SlotOfFirst(n: nat, k: nat, w: nat)
    requires 0 < w <= k && n < Pow16(k)
    ensures Slot(HexText(n, k)[..w]) == Some(n / Pow16(k - w) % SIGN_BIT)
  {
    FirstDigits(n, w, k - w);
    DigitsMeaning(n, k - w);
    HighFits(n, w, k - w);
    SlotOfDigits(HexText(n, k)[..w], High(n, k - w), w);
  }

  lemma SlotOfLast(n: nat, k: nat, w: nat)
    requires 0 < w <= k
    ensures Slot(HexText(n, k)[k - w..]) == Some(n % Pow16(w) % SIGN_BIT)
  {
    LastDigits(n, k - w, w);
    DigitsMeaning(n, w);
    SlotOfDigits(HexText(n, k)[k - w..], Low(n, w), w);
  }

  /** Of an id whose digits spell `n`, the two numbers are its 64 highest and its 64 lowest bits, less the top
      one. */
  lemma HeadAndTail(n: nat, k: nat)
    requires k >= 16 && n < Pow16(k)
    ensures Head(HexText(n, k)) == Some(n / Pow16(k - 16) % 0x8000_0000_0000_0000)
    ensures Tail(HexText(n, k)) == Some(n % 0x1_0000_0000_0000_0000 % 0x8000_0000_0000_0000)
  {
    var kid := HexText(n, k);
    assert kid[..|kid|] == kid == kid[0..];
    Pow16Of16();
    SlotOfFirst(n, k, 16);
    SlotOfLast(n, k, 16);
  }

  // ----- numbers of ids -----

  datatype Ids = Ids(kidToI64: map<string, int>, i64ToKid: map<int, string>)
  {
    predicate TakenByOther(i64: int, kid: string) { i64 in i64ToKid && i64ToKid[i64] != kid }

    /** The number an id gets, or why it gets none. */
    function Choose(kid: string): Outcome<int> {
      match Head(kid)
      case None => Outcome(0, Some(ValueError))
      case Some(head) =>
        if !TakenByOther(head, kid) then Done(head)
        else
          match Tail(kid)
          case None => Outcome(0, Some(ValueError))
          case Some(tail) => if TakenByOther(tail, kid) then Outcome(0, Some(RuntimeError)) else Done(tail)
    }

    function Put(kid: string, i64: int): Ids { Ids(kidToI64[kid := i64], i64ToKid[i64 := kid]) }

    function Register(kid: string): Ids {
      if Choose(kid).failure.Some? then this else Put(kid, Choose(kid).result)
    }

    function Drop(kid: string): Ids {
      if kid in kidToI64 then Ids(kidToI64 - {kid}, i64ToKid - {kidToI64[kid]}) else this
    }

    /** Each id's number is one of its two and leads back to the id. Numbers may also lead to ids that
        have moved to another number or are gone. */
    ghost predicate MapsBack() {
      forall kid {:trigger Back(kid)} :: kid in kidToI64 ==> Back(kid)
    }

    ghost predicate Back(kid: string)
      requires kid in kidToI64
    {
      var i64 := kidToI64[kid];
      && i64 in i64ToKid && i64ToKid[i64] == kid && i64 >= 0
      && Head(kid).Some? && (Some(i64) == Head(kid) || Some(i64) == Tail(kid))
    }
  }

  const NO_IDS := Ids(map[], map[])

  /** Every number in use leads to an id that has it. */
  ghost predicate NoStale(ids: Ids) {
    forall n :: n in ids.i64ToKid ==> Holds(ids, ids.i64ToKid[n], n)
  }

  ghost predicate Holds(ids: Ids, kid: string, n: int) { kid in ids.kidToI64 && ids.kidToI64[kid] == n }

  /** Registering this id again gives it another number than the one it has: it has its second number,
      and its first one does not lead to another id any more. */
  predicate Moves(ids: Ids, kid: string) {
    && kid in ids.kidToI64 && Head(kid).Some?
    && ids.kidToI64[kid] != Head(kid).value && !ids.TakenByOther(Head(kid).value, kid)
  }

  lemma SlotIsNotNegative(digits: string)
    ensures Slot(digits).Some? ==> 0 <= Slot(digits).value < SIGN_BIT
  {
  }

  /** Registering keeps what every id had, whether it succeeds, falls back or fails. */
  lemma RegisterKeeps(ids: Ids, kid: string)
    requires ids.MapsBack()
    ensures ids.Register(kid).MapsBack()
    ensures ids.Choose(kid).failure.None? ==> ids.Register(kid).kidToI64.Keys == ids.kidToI64.Keys + {kid}
    ensures forall k :: k in ids.kidToI64 && k != kid ==>
      k in ids.Register(kid).kidToI64 && ids.Register(kid).kidToI64[k] == ids.kidToI64[k]
  {
    if ids.Choose(kid).failure.None? {
      var next, i64 := ids.Register(kid), ids.Choose(kid).result;
      SlotIsNotNegative(if |kid| > 16 then kid[..16] else kid);
      SlotIsNotNegative(if |kid| > 16 then kid[|kid| - 16..] else kid);
      forall k | k in next.kidToI64 ensures next.Back(k) {
        assert k != kid ==> ids.Back(k);
      }
    }
  }

  lemma DropKeeps(ids: Ids, kid: string)
    requires ids.MapsBack()
    ensures ids.Drop(kid).MapsBack() && ids.Drop(kid).kidToI64.Keys == ids.kidToI64.Keys - {kid}
    ensures forall k :: k in ids.kidToI64 && k != kid ==>
      k in ids.Drop(kid).kidToI64 && ids.Drop(kid).kidToI64[k] == ids.kidToI64[k]
  {
    var next := ids.Drop(kid);
    forall k | k in next.kidToI64 ensures next.Back(k) {
      assert ids.Back(k);
      assert kid in ids.kidToI64 ==> ids.Back(kid);
    }
  }

  /** No two ids share a number. */
  lemma NumbersAreDistinct(ids: Ids, a: string, b: string)
    requires ids.MapsBack() && a in ids.kidToI64 && b in ids.kidToI64
    ensures ids.kidToI64[a] == ids.kidToI64[b] <==> a == b
  {
    assert ids.Back(a) && ids.Back(b);
  }

  /** Registering an id again never fails: at worst it keeps its number. */
  lemma RegisterAgain(ids: Ids, kid: string)
    requires ids.MapsBack() && kid in ids.kidToI64
    ensures ids.Choose(kid).failure.None?
  {
    assert ids.Back(kid);
  }

  /** An id with readable digits is refused, in a state without stale numbers, exactly when both its
      numbers belong to other ids that are registered. */
  lemma WhenNoNumberIsLeft(ids: Ids, kid: string)
    requires ids.MapsBack() && NoStale(ids) && Head(kid).Some? && Tail(kid).Some?
    ensures ids.Choose(kid).failure.Some? <==>
      && (exists a :: a != kid && Holds(ids, a, Head(kid).value))
      && (exists b :: b != kid && Holds(ids, b, Tail(kid).value))
  {
    TakenMeansHeld(ids, kid, Head(kid).value);
    TakenMeansHeld(ids, kid, Tail(kid).value);
  }

  lemma TakenMeansHeld(ids: Ids, kid: string, n: int)
    requires ids.MapsBack() && NoStale(ids)
    ensures ids.TakenByOther(n, kid) <==> exists a :: a != kid && Holds(ids, a, n)
  {
    if ids.TakenByOther(n, kid) {
      assert Holds(ids, ids.i64ToKid[n], n);
    } else if a :| a != kid && Holds(ids, a, n) {
      assert ids.Back(a);
    }
  }

  /** A registration leaves a stale number behind exactly when it moves the id. */
  lemma RegisterStale(ids: Ids, kid: string)
    requires ids.MapsBack() && NoStale(ids)
    ensures NoStale(ids.Register(kid)) <==> !Moves(ids, kid)
  {
    var next := ids.Register(kid);
    if kid in ids.kidToI64 {
      assert ids.Back(kid);
    }
    if Moves(ids, kid) {
      var n := ids.kidToI64[kid];
      assert n in next.i64ToKid && !Holds(next, next.i64ToKid[n], n);
    } else {
      forall n | n in next.i64ToKid ensures Holds(next, next.i64ToKid[n], n) {
        assert n in ids.i64ToKid ==> Holds(ids, ids.i64ToKid[n], n);
      }
    }
  }

  /** A deletion leaves none behind. */
  lemma DropStale(ids: Ids, kid: string)
    requires ids.MapsBack() && NoStale(ids)
    ensures NoStale(ids.Drop(kid))
  {
    var next := ids.Drop(kid);
    forall n | n in next.i64ToKid ensures Holds(next, next.i64ToKid[n], n) {
      assert Holds(ids, ids.i64ToKid[n], n);
    }
  }

  /** A number can stay taken for good by an id that is gone: an id that was given its second number
      and moves leaves it behind, and its own deletion does not release it. */
  lemma NumbersCanGoStale(first: string, second: string)
    requires first != second && Head(first).Some? && Head(first) == Head(second)
    requires Tail(second).Some? && Tail(second) != Head(second)
    ensures var moved := NO_IDS.Register(first).Register(second).Drop(first);
      && NoStale(moved) && Moves(moved, second)
      && moved.Register(second).Drop(second) == Ids(map[], map[Tail(second).value := second])
  {
    var h, t := Head(first).value, Tail(second).value;
    var a := NO_IDS.Register(first);
    assert a == Ids(map[first := h], map[h := first]);
    var b := a.Register(second);
    assert b == Ids(map[first := h, second := t], map[h := first, t := second]);
    var c := b.Drop(first);
    assert c == Ids(map[second := t], map[t := second]);
    var d := c.Register(second);
    assert d == Ids(map[second := h], map[t := second, h := second]);
  }

  // ----- runs -----

  datatype Event = Upsert(kid: string) | Delete(kid: string)

  function After(es: seq<Event>): Ids
    decreases |es|
  {
    if es == [] then NO_IDS
    else
      var before := After(es[..|es| - 1]);
      match es[|es| - 1]
      case Upsert(kid) => before.Register(kid)
      case Delete(kid) => before.Drop(kid)
  }

  /** Over every run of insertions and deletions, failed insertions included: every id maps back, and
      no two ids share a number. */
  lemma {:induction false} EveryRunMapsBack(es: seq<Event>)
    ensures After(es).MapsBack()
    ensures forall a, b :: a in After(es).kidToI64 && b in After(es).kidToI64 && a != b ==>
      After(es).kidToI64[a] != After(es).kidToI64[b]
    decreases |es|
  {
    if es != [] {
      var before, e := After(es[..|es| - 1]), es[|es| - 1];
      EveryRunMapsBack(es[..|es| - 1]);
      RegisterKeeps(before, e.kid);
      DropKeeps(before, e.kid);
    }
    forall a, b | a in After(es).kidToI64 && b in After(es).kidToI64 && a != b
      ensures After(es).kidToI64[a] != After(es).kidToI64[b]
    {
      NumbersAreDistinct(After(es), a, b);
    }
  }

  /** No insertion of the run moves an id. */
  ghost predicate NoneMoves(es: seq<Event>)
    decreases |es|
  {
    es == [] ||
    (NoneMoves(es[..|es| - 1]) && (es[|es| - 1].Upsert? ==> !Moves(After(es[..|es| - 1]), es[|es| - 1].kid)))
  }

  /** A run never has a stale number, at any time, exactly when no insertion moves an id. */
  lemma {:induction false} RunsWithoutStale(es: seq<Event>)
    ensures NoneMoves(es) <==> forall k :: 0 <= k <= |es| ==> NoStale(After(es[..k]))
    decreases |es|
  {
    assert es[..|es|] == es;
    if es != [] {
      var front, e := es[..|es| - 1], es[|es| - 1];
      RunsWithoutStale(front);
      EveryRunMapsBack(front);
      assert forall k :: 0 <= k <= |front| ==> front[..k] == es[..k];
      assert front[..|front|] == front;
      if NoStale(After(front)) {
        RegisterStale(After(front), e.kid);
        DropStale(After(front), e.kid);
      }
    }
  }

  lemma LowerKeepsBare(s: string)
    requires Bare(s, White)
    ensures Bare(Lower(s), White)
  {
  }

  /** Cleaning an id twice is cleaning it once. */
  lemma CleanKidIsIdempotent(kid: string)
    ensures CleanKid(CleanKid(kid)) == CleanKid(kid)
  {
    StripIsBare(kid, White);
    LowerKeepsBare(Strip(kid, White));
    StripOfBare(CleanKid(kid), White);
    assert Lower(Lower(Strip(kid, White))) == Lower(Strip(kid, White));
  }
}
