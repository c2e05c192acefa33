/** The debugger's binary search among the stabs of one type. */
module Stab {
  const WORD := 0x1_0000_0000

  datatype Entry = Entry(kind: int, value: int)

  predicate Is(t: seq<Entry>, kind: int, i: int) { 0 <= i < |t| && t[i].kind == kind }

  predicate Words(t: seq<Entry>) { forall i :: 0 <= i < |t| ==> 0 <= t[i].value < WORD }

  // ---------------------------------------------------------------- the search as a function

  /** The last stab of the type in [l, m], or l - 1. */
  function LastIn(t: seq<Entry>, kind: int, l: int, m: int): (k: int)
    requires 0 <= l <= m + 1 <= |t|
    ensures l - 1 <= k <= m && (k >= l ==> Is(t, kind, k))
    ensures forall i :: k < i <= m ==> !Is(t, kind, i)
    decreases m - l + 1
  {
    if m < l || t[m].kind == kind then m else LastIn(t, kind, l, m - 1)
  }

  /** The loop: from the range [l, r] and *region_left, the final *region_left, *region_right and any_matches.
      *region_right is r throughout. */
  function Search(t: seq<Entry>, kind: int, l: int, r: int, left: int, addr: int, any: bool): (int, int, bool)
    requires 0 <= l <= r + 1 <= |t|
    decreases r - l + 1, if Is(t, kind, l) && t[l].value == addr then 1 else 0
  {
    if l > r then (left, r, any)
    else
      var mid := (l + r) / 2;
      var m := LastIn(t, kind, l, mid);
      if m < l then Search(t, kind, mid + 1, r, left, addr, any)
      else if t[m].value < addr then Search(t, kind, mid + 1, r, m, addr, true)
      else if t[m].value > addr then Search(t, kind, l, m - 1, left, addr, true)
      else Search(t, kind, m, r, m, (addr + 1) % WORD, true)
  }

  /** The last loop: down from `l` to a stab of the type, but not below `left`. */
  function ScanDown(t: seq<Entry>, kind: int, left: int, l: int): int
    requires 0 <= left && l < |t|
    decreases l - left
  {
    if l > left && t[l].kind != kind then ScanDown(t, kind, left, l - 1) else l
  }

  function BinSearch(t: seq<Entry>, kind: int, left: int, right: int, addr: int): (int, int)
    requires 0 <= left <= right + 1 <= |t|
  {
    var (lf, rt, any) := Search(t, kind, left, right, left, addr, false);
    if !any then (lf, lf - 1)
    else if 0 <= lf && rt < |t| then (ScanDown(t, kind, lf, rt), rt)
    else (lf, rt)
  }

  // ---------------------------------------------------------------- stab_binsearch

  /** One round of the loop. */
  lemma SearchStep(t: seq<Entry>, kind: int, l: int, r: int, left: int, addr: int, any: bool)
    requires 0 <= l <= r < |t|
    ensures var mid := (l + r) / 2; var m := LastIn(t, kind, l, mid);
            Search(t, kind, l, r, left, addr, any) ==
            if m < l then Search(t, kind, mid + 1, r, left, addr, any)
            else if t[m].value < addr then Search(t, kind, mid + 1, r, m, addr, true)
            else if t[m].value > addr then Search(t, kind, l, m - 1, left, addr, true)
            else Search(t, kind, m, r, m, (addr + 1) % WORD, true)
  {
  }

  lemma SearchEnds(t: seq<Entry>, kind: int, l: int, r: int, left: int, addr: int, any: bool)
    requires 0 <= l == r + 1 <= |t|
    ensures Search(t, kind, l, r, left, addr, any) == (left, r, any)
  {
  }

  /** stab_binsearch; regionLeft and regionRight start as the range and end as the result. It terminates on every
      table, even when an exact match leaves the range unchanged. */
  method StabBinsearch(t: seq<Entry>, left: int, right: int, kind: int, address: int)
    returns (regionLeft: int, regionRight: int)
    requires 0 <= left <= right + 1 <= |t|
    ensures (regionLeft, regionRight) == BinSearch(t, kind, left, right, address)
  {
    hide Search;
    regionLeft, regionRight := left, right;
    var l, r, anyMatches, addr := left, right, false, address;
    while l <= r
      invariant 0 <= l <= r + 1 <= |t| && regionRight == r && left <= regionLeft <= right + 1 && left <= l
      invariant r <= right
      invariant Search(t, kind, l, r, regionLeft, addr, anyMatches) ==
                Search(t, kind, left, right, left, address, false)
      decreases r - l + 1, if Is(t, kind, l) && t[l].value == addr then 1 else 0
    {
      var trueM := (l + r) / 2;
      var m := trueM;
      while m >= l && t[m].kind != kind
        invariant l - 1 <= m <= trueM && LastIn(t, kind, l, m) == LastIn(t, kind, l, trueM)
      {
        m := m - 1;
      }
      SearchStep(t, kind, l, r, regionLeft, addr, anyMatches);
      if m < l {
        l := trueM + 1;
        continue;
      }
      anyMatches := true;
      if t[m].value < addr {
        regionLeft := m;
        l := trueM + 1;
      } else if t[m].value > addr {
        regionRight := m - 1;
        r := m - 1;
      } else {
        regionLeft := m;
        l := m;
        addr := (addr + 1) % WORD;
      }
    }
    SearchEnds(t, kind, l, r, regionLeft, addr, anyMatches);
    if !anyMatches {
      regionRight := regionLeft - 1;
    } else {
      l := regionRight;
      while l > regionLeft && t[l].kind != kind
        invariant l <= regionRight && ScanDown(t, kind, regionLeft, l) == ScanDown(t, kind, regionLeft, regionRight)
      {
        l := l - 1;
      }
      regionLeft := l;
    }
  }

  // ---------------------------------------------------------------- any table: empty means no stab of the type

  lemma {:induction false} SearchBounds(t: seq<Entry>, kind: int, l: int, r: int, left: int, addr: int, any: bool)
    requires 0 <= l <= r + 1 <= |t| && 0 <= left
    ensures var (lf, rt, found) := Search(t, kind, l, r, left, addr, any);
            && 0 <= lf && l - 1 <= rt <= r && (!found ==> lf == left)
            && (found <==> any || exists i :: l <= i <= r && Is(t, kind, i))
    decreases r - l + 1, if Is(t, kind, l) && t[l].value == addr then 1 else 0
  {
    if l <= r {
      var mid := (l + r) / 2;
      var m := LastIn(t, kind, l, mid);
      if m < l {
        SearchBounds(t, kind, mid + 1, r, left, addr, any);
      } else if t[m].value < addr {
        SearchBounds(t, kind, mid + 1, r, m, addr, true);
      } else if t[m].value > addr {
        SearchBounds(t, kind, l, m - 1, left, addr, true);
      } else {
        SearchBounds(t, kind, m, r, m, (addr + 1) % WORD, true);
      }
    }
  }

  lemma {:induction false} ScanDownIs(t: seq<Entry>, kind: int, left: int, l: int)
    requires 0 <= left && l < |t|
    ensures var k := ScanDown(t, kind, left, l);
            && k <= l && (l >= left ==> k >= left) && (l < left ==> k == l)
            && (k > left ==> Is(t, kind, k)) && forall i :: k < i <= l ==> !Is(t, kind, i)
    decreases l - left
  {
    if l > left && t[l].kind != kind { ScanDownIs(t, kind, left, l - 1); }
  }

  /** Whatever the values: the range comes out empty exactly when it holds no stab of the type. */
  lemma EmptyIff(t: seq<Entry>, kind: int, left: int, right: int, addr: int)
    requires 0 <= left <= right + 1 <= |t|
    ensures var (lf, rt) := BinSearch(t, kind, left, right, addr);
            lf > rt <==> forall i :: left <= i <= right ==> !Is(t, kind, i)
  {
    SearchBounds(t, kind, left, right, left, addr, false);
    var (lf, rt, any) := Search(t, kind, left, right, left, addr, false);
    if any { ScanDownIs(t, kind, lf, rt); }
  }

  // ---------------------------------------------------------------- sorted tables

  predicate Sorted(t: seq<Entry>, kind: int, lo: int, hi: int) {
    forall i, j :: lo <= i < j <= hi && Is(t, kind, i) && Is(t, kind, j) ==> t[i].value < t[j].value
  }

  predicate Holds(t: seq<Entry>, kind: int, l: int, r: int, value: int) {
    exists i :: l <= i <= r && Is(t, kind, i) && t[i].value == value
  }

  /** If the search meets a stab at `addr` itself, no stab of the type left in the range lies at addr + 1, where
      the search goes on looking. This follows the midpoints of the search, so only a search tells: what a caller can
      test beforehand is the condition of `SafeWhen`, which no narrower test of the addresses alone can improve on
      (`CorrectEverywhereIff`). */
  predicate Safe(t: seq<Entry>, kind: int, l: int, r: int, addr: int)
    requires 0 <= l <= r + 1 <= |t|
    decreases r - l + 1
  {
    l > r ||
    var mid := (l + r) / 2;
    var m := LastIn(t, kind, l, mid);
    if m < l || t[m].value < addr then Safe(t, kind, mid + 1, r, addr)
    else if t[m].value > addr then Safe(t, kind, l, m - 1, addr)
    else addr + 1 < WORD && !Holds(t, kind, m, r, addr + 1)
  }

  /** The range is safe when `addr` and addr + 1 are not both values in it and `addr` is not the last address. */
  lemma {:induction false} SafeWhen(t: seq<Entry>, kind: int, l: int, r: int, addr: int)
    requires 0 <= l <= r + 1 <= |t|
    requires Holds(t, kind, l, r, addr) ==> !Holds(t, kind, l, r, addr + 1) && addr + 1 < WORD
    ensures Safe(t, kind, l, r, addr)
    decreases r - l + 1
  {
    if l <= r {
      var mid := (l + r) / 2;
      var m := LastIn(t, kind, l, mid);
      if m < l || t[m].value < addr {
        SafeWhen(t, kind, mid + 1, r, addr);
      } else if t[m].value > addr {
        SafeWhen(t, kind, l, m - 1, addr);
      }
    }
  }

  /** Everything of the type up to `rt` is at or below `addr`, everything past it above. */
  predicate Splits(t: seq<Entry>, kind: int, lo: int, hi: int, addr: int, rt: int) {
    && (forall i :: lo <= i <= rt && i <= hi && Is(t, kind, i) ==> t[i].value <= addr)
    && (forall i :: rt < i <= hi && lo <= i && Is(t, kind, i) ==> t[i].value > addr)
    && (rt == hi || Is(t, kind, rt + 1))
  }

  /** How far the loop has come: it looks for `now`, which is addr before an exact match and addr + 1 after one. */
  predicate Narrowed(t: seq<Entry>, kind: int, lo: int, hi: int, l: int, r: int, left: int, addr: int, now: int) {
    && 0 <= lo <= l <= r + 1 && r <= hi < |t|
    && (now == addr || (now == addr + 1 && !Holds(t, kind, l, r, addr + 1)))
    && (forall i :: lo <= i < l && Is(t, kind, i) ==> t[i].value <= addr)
    && (forall i :: r < i <= hi && Is(t, kind, i) ==> t[i].value > addr)
    && (r == hi || Is(t, kind, r + 1))
    && (left == lo || (lo <= left <= r && Is(t, kind, left) && t[left].value < now))
  }

  lemma NarrowRight(t: seq<Entry>, kind: int, lo: int, hi: int, l: int, r: int, left: int, addr: int, now: int,
                    mid: int, m: int)
    requires Narrowed(t, kind, lo, hi, l, r, left, addr, now) && Sorted(t, kind, lo, hi)
    requires l <= mid <= r && m == LastIn(t, kind, l, mid) && (m >= l ==> t[m].value < now)
    ensures Narrowed(t, kind, lo, hi, mid + 1, r, if m < l then left else m, addr, now)
  {
    assert m >= l && now == addr + 1 ==> t[m].value <= addr;
    assert forall i :: l <= i <= mid && Is(t, kind, i) ==> i <= m;
    assert Holds(t, kind, mid + 1, r, addr + 1) ==> Holds(t, kind, l, r, addr + 1);
  }

  lemma NarrowLeft(t: seq<Entry>, kind: int, lo: int, hi: int, l: int, r: int, left: int, addr: int, now: int,
                   mid: int, m: int)
    requires Narrowed(t, kind, lo, hi, l, r, left, addr, now) && Sorted(t, kind, lo, hi)
    requires l <= mid <= r && m == LastIn(t, kind, l, mid) && l <= m && t[m].value > now
    ensures Narrowed(t, kind, lo, hi, l, m - 1, left, addr, now)
  {
  }

  /** The loop splits a sorted range at `addr`. */
  lemma {:induction false} SearchSplits(t: seq<Entry>, kind: int, lo: int, hi: int, l: int, r: int, left: int,
                                        addr: int, now: int, any: bool)
    requires Narrowed(t, kind, lo, hi, l, r, left, addr, now) && Words(t) && Sorted(t, kind, lo, hi)
    requires 0 <= l <= r + 1 <= |t| && (now == addr ==> Safe(t, kind, l, r, addr))
    ensures var (lf, rt, found) := Search(t, kind, l, r, left, now, any);
            && lo - 1 <= rt <= hi && Splits(t, kind, lo, hi, addr, rt)
            && (lf == lo || (lo <= lf <= rt && Is(t, kind, lf)))
    decreases r - l + 1, if Is(t, kind, l) && t[l].value == now then 1 else 0
  {
    hide Search, Safe, Narrowed, Sorted, Splits, Holds, Words;
    NarrowedRange(t, kind, lo, hi, l, r, left, addr, now);
    if l > r {
      SearchEnds(t, kind, l, r, left, now, any);
    } else {
      var mid := (l + r) / 2;
      var m := LastIn(t, kind, l, mid);
      SearchStep(t, kind, l, r, left, now, any);
      if now == addr { SafeStep(t, kind, l, r, addr); }
      if m < l {
        NarrowRight(t, kind, lo, hi, l, r, left, addr, now, mid, m);
        SearchSplits(t, kind, lo, hi, mid + 1, r, left, addr, now, any);
      } else if t[m].value < now {
        NarrowRight(t, kind, lo, hi, l, r, left, addr, now, mid, m);
        SearchSplits(t, kind, lo, hi, mid + 1, r, m, addr, now, true);
      } else if t[m].value > now {
        NarrowLeft(t, kind, lo, hi, l, r, left, addr, now, mid, m);
        SearchSplits(t, kind, lo, hi, l, m - 1, left, addr, now, true);
      } else {
        NarrowExact(t, kind, lo, hi, l, r, left, addr, now, mid, m);
        SearchSplits(t, kind, lo, hi, m, r, m, addr, addr + 1, true);
      }
    }
  }

  lemma NarrowedRange(t: seq<Entry>, kind: int, lo: int, hi: int, l: int, r: int, left: int, addr: int, now: int)
    requires Narrowed(t, kind, lo, hi, l, r, left, addr, now)
    ensures 0 <= lo <= l <= r + 1 && r <= hi < |t| && (left == lo || (lo <= left <= r && Is(t, kind, left)))
    ensures l > r ==> Splits(t, kind, lo, hi, addr, r)
  {
  }

  lemma SafeStep(t: seq<Entry>, kind: int, l: int, r: int, addr: int)
    requires 0 <= l <= r + 1 <= |t|
    ensures l > r ==> Safe(t, kind, l, r, addr)
    ensures l <= r ==> var mid := (l + r) / 2; var m := LastIn(t, kind, l, mid);
            Safe(t, kind, l, r, addr) ==
            if m < l || t[m].value < addr then Safe(t, kind, mid + 1, r, addr)
            else if t[m].value > addr then Safe(t, kind, l, m - 1, addr)
            else addr + 1 < WORD && !Holds(t, kind, m, r, addr + 1)
  {
  }

  lemma NarrowExact(t: seq<Entry>, kind: int, lo: int, hi: int, l: int, r: int, left: int, addr: int, now: int,
                    mid: int, m: int)
    requires Narrowed(t, kind, lo, hi, l, r, left, addr, now) && Sorted(t, kind, lo, hi) && Words(t)
    requires l <= mid <= r && m == LastIn(t, kind, l, mid) && l <= m && t[m].value == now
    requires now == addr ==> addr + 1 < WORD && !Holds(t, kind, m, r, addr + 1)
    ensures now == addr && (now + 1) % WORD == addr + 1 && Narrowed(t, kind, lo, hi, m, r, m, addr, addr + 1)
  {
    assert now == addr + 1 ==> Holds(t, kind, l, r, addr + 1);
  }

  /** What the search promises: *region_left at the last stab at or below `addr` (with none, at the start of the
      range or just before it), *region_right just before the next stab of the type or at the old right end. */
  predicate Brackets(t: seq<Entry>, kind: int, lo: int, hi: int, addr: int, lf: int, rt: int) {
    && Splits(t, kind, lo, hi, addr, rt) && lf <= rt
    && (forall i :: lf < i <= rt ==> !Is(t, kind, i))
    && (if exists i :: lo <= i <= rt && Is(t, kind, i) then lo <= lf && Is(t, kind, lf)
        else lf == if rt >= lo then lo else rt)
  }

  lemma BracketsFrom(t: seq<Entry>, kind: int, lo: int, hi: int, addr: int, left: int, rt: int, k: int)
    requires 0 <= lo && lo - 1 <= rt <= hi < |t| && Splits(t, kind, lo, hi, addr, rt)
    requires left == lo || (lo <= left <= rt && Is(t, kind, left))
    requires k <= rt && (rt >= left ==> k >= left) && (rt < left ==> k == rt) && (k > left ==> Is(t, kind, k))
    requires forall i :: k < i <= rt ==> !Is(t, kind, i)
    ensures Brackets(t, kind, lo, hi, addr, k, rt)
  {
    hide Splits;
    if i :| lo <= i <= rt && Is(t, kind, i) {
      assert i <= k;
    }
  }

  /** In a sorted table that holds stabs of the type, a safe search brackets the address. */
  lemma BinSearchCorrect(t: seq<Entry>, kind: int, left: int, right: int, addr: int)
    requires 0 <= left <= right + 1 <= |t| && Words(t) && Sorted(t, kind, left, right)
    requires Safe(t, kind, left, right, addr)
    requires exists i :: left <= i <= right && Is(t, kind, i)
    ensures var (lf, rt) := BinSearch(t, kind, left, right, addr);
            left - 1 <= rt <= right && Brackets(t, kind, left, right, addr, lf, rt)
  {
    SearchBounds(t, kind, left, right, left, addr, false);
    SearchSplits(t, kind, left, right, left, right, left, addr, addr, false);
    hide Search, Safe, Words, Sorted, Splits, Brackets, Is;
    var (lf, rt, any) := Search(t, kind, left, right, left, addr, false);
    ScanDownIs(t, kind, lf, rt);
    BracketsFrom(t, kind, left, right, addr, lf, rt, ScanDown(t, kind, lf, rt));
  }

  /** In particular when some stab lies at or below the address and none just past it: the left end is the last
      stab at or below it, the right end is just before the next stab of the type. */
  lemma FindsLastAtOrBelow(t: seq<Entry>, kind: int, left: int, right: int, addr: int)
    requires 0 <= left <= right + 1 <= |t| && Words(t) && Sorted(t, kind, left, right)
    requires !Holds(t, kind, left, right, addr + 1) && addr + 1 < WORD
    requires exists i :: left <= i <= right && Is(t, kind, i) && t[i].value <= addr
    ensures var (lf, rt) := BinSearch(t, kind, left, right, addr);
            && left <= lf <= rt <= right && Is(t, kind, lf) && t[lf].value <= addr
            && (forall i :: lf < i <= right && Is(t, kind, i) ==> t[i].value > addr && i > rt)
            && (rt == right || Is(t, kind, rt + 1))
  {
    SafeWhen(t, kind, left, right, addr);
    hide Safe, BinSearch;
    BinSearchCorrect(t, kind, left, right, addr);
  }

  // ---------------------------------------------------------------- exactly when

  /** No stab of the type lies at the last address of all. */
  predicate BelowTop(t: seq<Entry>, kind: int, lo: int, hi: int) {
    forall i :: lo <= i <= hi && Is(t, kind, i) ==> 0 <= t[i].value < WORD - 1
  }

  /** The right end never moves below a stab at or under the value looked for. */
  lemma {:induction false} NeverBelow(t: seq<Entry>, kind: int, lo: int, hi: int, l: int, r: int, left: int,
                                      now: int, any: bool, q: int)
    requires 0 <= lo <= l <= r + 1 && r <= hi < |t| && Sorted(t, kind, lo, hi) && BelowTop(t, kind, lo, hi)
    requires lo <= q <= r && Is(t, kind, q) && t[q].value <= now
    ensures Search(t, kind, l, r, left, now, any).1 >= q
    decreases r - l + 1, if Is(t, kind, l) && t[l].value == now then 1 else 0
  {
    hide Search, Sorted, BelowTop;
    if l > r {
      SearchEnds(t, kind, l, r, left, now, any);
    } else {
      SearchStep(t, kind, l, r, left, now, any);
      var mid := (l + r) / 2;
      var m := LastIn(t, kind, l, mid);
      if m < l {
        NeverBelow(t, kind, lo, hi, mid + 1, r, left, now, any, q);
      } else if t[m].value < now {
        NeverBelow(t, kind, lo, hi, mid + 1, r, m, now, true, q);
      } else if t[m].value > now {
        Before(t, kind, lo, hi, q, m);
        NeverBelow(t, kind, lo, hi, l, m - 1, left, now, true, q);
      } else {
        NoWrap(t, kind, lo, hi, m);
        NeverBelow(t, kind, lo, hi, m, r, m, now + 1, true, q);
      }
    }
  }

  lemma Before(t: seq<Entry>, kind: int, lo: int, hi: int, i: int, j: int)
    requires Sorted(t, kind, lo, hi) && lo <= i <= hi && lo <= j <= hi && Is(t, kind, i) && Is(t, kind, j)
    requires t[i].value < t[j].value
    ensures i < j
  {
  }

  lemma NoWrap(t: seq<Entry>, kind: int, lo: int, hi: int, i: int)
    requires BelowTop(t, kind, lo, hi) && lo <= i <= hi && Is(t, kind, i)
    ensures (t[i].value + 1) % WORD == t[i].value + 1 < WORD
  {
  }

  /** An unsafe search ends past a stab at addr + 1. */
  lemma {:induction false} UnsafeOvershoots(t: seq<Entry>, kind: int, lo: int, hi: int, l: int, r: int, left: int,
                                            addr: int, any: bool)
    requires 0 <= lo <= l <= r + 1 && r <= hi < |t| && Sorted(t, kind, lo, hi) && BelowTop(t, kind, lo, hi)
    requires !Safe(t, kind, l, r, addr)
    ensures !Splits(t, kind, lo, hi, addr, Search(t, kind, l, r, left, addr, any).1)
    decreases r - l + 1
  {
    hide Search, Safe, Sorted, BelowTop, Splits, Holds;
    SafeStep(t, kind, l, r, addr);
    SearchStep(t, kind, l, r, left, addr, any);
    var mid := (l + r) / 2;
    var m := LastIn(t, kind, l, mid);
    if m < l {
      UnsafeOvershoots(t, kind, lo, hi, mid + 1, r, left, addr, any);
    } else if t[m].value < addr {
      UnsafeOvershoots(t, kind, lo, hi, mid + 1, r, m, addr, true);
    } else if t[m].value > addr {
      UnsafeOvershoots(t, kind, lo, hi, l, m - 1, left, addr, true);
    } else {
      NoWrap(t, kind, lo, hi, m);
      ExactOvershoots(t, kind, lo, hi, m, r, addr);
    }
  }

  lemma ExactOvershoots(t: seq<Entry>, kind: int, lo: int, hi: int, m: int, r: int, addr: int)
    requires 0 <= lo <= m <= r <= hi < |t| && Sorted(t, kind, lo, hi) && BelowTop(t, kind, lo, hi)
    requires Holds(t, kind, m, r, addr + 1)
    ensures !Splits(t, kind, lo, hi, addr, Search(t, kind, m, r, m, addr + 1, true).1)
  {
    var q :| m <= q <= r && Is(t, kind, q) && t[q].value == addr + 1;
    NeverBelow(t, kind, lo, hi, m, r, m, addr + 1, true, q);
    hide Search, Sorted, BelowTop;
  }

  /** In a sorted table with stabs of the type, none at the last address, the search brackets the address exactly
      when it is safe. */
  lemma CorrectIffSafe(t: seq<Entry>, kind: int, left: int, right: int, addr: int)
    requires 0 <= left <= right + 1 <= |t| && Words(t) && Sorted(t, kind, left, right) && BelowTop(t, kind, left, right)
    requires exists i :: left <= i <= right && Is(t, kind, i)
    ensures var (lf, rt) := BinSearch(t, kind, left, right, addr);
            Brackets(t, kind, left, right, addr, lf, rt) <==> Safe(t, kind, left, right, addr)
  {
    if Safe(t, kind, left, right, addr) {
      BinSearchCorrect(t, kind, left, right, addr);
    } else {
      SearchBounds(t, kind, left, right, left, addr, false);
      UnsafeOvershoots(t, kind, left, right, left, right, left, addr, false);
      hide Search, Safe, Words, Sorted, Splits;
    }
  }

  predicate HasStab(t: seq<Entry>, kind: int, l: int, r: int) { exists i :: l <= i <= r && Is(t, kind, i) }

  predicate Correct(t: seq<Entry>, kind: int, l: int, r: int, addr: int)
    requires 0 <= l <= r + 1 <= |t|
  {
    var (lf, rt) := BinSearch(t, kind, l, r, addr);
    Brackets(t, kind, l, r, addr, lf, rt)
  }

  /** The range from a stab at `addr` to one at addr + 1 is not safe. */
  lemma BothMislead(t: seq<Entry>, kind: int, i: int, j: int, addr: int)
    requires 0 <= i < j < |t| && Sorted(t, kind, i, j) && Is(t, kind, i) && Is(t, kind, j)
    requires t[i].value == addr && t[j].value == addr + 1
    ensures !Safe(t, kind, i, j, addr)
  {
    assert LastIn(t, kind, i, (i + j) / 2) == i;
  }

  /** What a caller can tell from the addresses: every range of the table that has stabs of the type is searched
      correctly exactly when the table does not have both `addr` and addr + 1. */
  lemma CorrectEverywhereIff(t: seq<Entry>, kind: int, lo: int, hi: int, addr: int)
    requires 0 <= lo <= hi < |t| && Words(t) && Sorted(t, kind, lo, hi) && BelowTop(t, kind, lo, hi)
    ensures !(Holds(t, kind, lo, hi, addr) && Holds(t, kind, lo, hi, addr + 1)) <==>
            forall l, r :: lo <= l <= r <= hi && HasStab(t, kind, l, r) ==> Correct(t, kind, l, r, addr)
  {
    if Holds(t, kind, lo, hi, addr) && Holds(t, kind, lo, hi, addr + 1) {
      var i :| lo <= i <= hi && Is(t, kind, i) && t[i].value == addr;
      var j :| lo <= j <= hi && Is(t, kind, j) && t[j].value == addr + 1;
      BothMislead(t, kind, i, j, addr);
      assert HasStab(t, kind, i, j);
      hide Safe, BinSearch;
      CorrectIffSafe(t, kind, i, j, addr);
      assert !Correct(t, kind, i, j, addr);
    } else {
      hide Safe, BinSearch;
      forall l, r | lo <= l <= r <= hi && HasStab(t, kind, l, r) ensures Correct(t, kind, l, r, addr) {
        SafeWhen(t, kind, l, r, addr);
        CorrectIffSafe(t, kind, l, r, addr);
      }
    }
  }

  /** Two stabs at addresses 10 and 11: looking for 10 finds the second one. */
  lemma NextAddressMisleads()
    ensures BinSearch([Entry(0, 10), Entry(0, 11)], 0, 0, 1, 10) == (1, 1)
  {
    var t := [Entry(0, 10), Entry(0, 11)];
    assert LastIn(t, 0, 0, 0) == 0 && LastIn(t, 0, 1, 1) == 1;
    calc {
      Search(t, 0, 0, 1, 0, 10, false);
      Search(t, 0, 0, 1, 0, 11, true);
      Search(t, 0, 1, 1, 0, 11, true);
      Search(t, 0, 1, 1, 1, 12, true);
      Search(t, 0, 2, 1, 1, 12, true);
    }
  }

  /** A stab above the address: the result is not empty although nothing contains the address. */
  lemma NotEmptyThoughAbove(addr: int)
    requires 0 <= addr < 5
    ensures BinSearch([Entry(1, 0), Entry(0, 5)], 0, 0, 1, addr) == (0, 0)
  {
    var t := [Entry(1, 0), Entry(0, 5)];
    assert LastIn(t, 0, 0, 0) == -1 && LastIn(t, 0, 1, 1) == 1;
    calc {
      Search(t, 0, 0, 1, 0, addr, false);
      Search(t, 0, 1, 1, 0, addr, false);
      Search(t, 0, 1, 0, 0, addr, true);
    }
  }
}
