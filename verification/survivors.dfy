/** The survivor records of the after-disaster module: a fixed array of 100
    slots whose first `count` slots are in use, with add, search, delete by
    shifting, display and an in-place bubble sort by name. */
module Survivors {
  import opened Results
  import opened Text

  /** The length of `new Survivor[100]`. */
  const Capacity: nat := 100

  datatype Survivor = Survivor(name: string, location: string, healthStatus: string, assistanceNeeded: string)

  datatype SurvivorError = LimitReached | NotInSystem {
    function Message(): string {
      match this
      case LimitReached => "Cannot add more survivors. Maximum limit reached."
      case NotInSystem => "Survivor not found in the system."
    }
  }

  /** The array (`None` for `null`) and the number of slots in use. */
  datatype Store = Store(slots: seq<Option<Survivor>>, count: int)

  /** The array keeps its length, `count` stays within it, and exactly the
      first `count` slots are filled. */
  predicate Valid(st: Store) {
    && |st.slots| == Capacity
    && 0 <= st.count <= Capacity
    && forall i :: 0 <= i < Capacity ==> (st.slots[i].Some? <==> i < st.count)
  }

  /** The survivors in the slots in use, in array order. */
  function Live(st: Store): (xs: seq<Survivor>)
    requires Valid(st)
    ensures |xs| == st.count
    ensures forall i :: 0 <= i < st.count ==> st.slots[i] == Some(xs[i])
  {
    seq(st.count, i requires 0 <= i < st.count && Valid(st) => st.slots[i].value)
  }

  /** The array as the module starts: every slot empty. */
  function NewStore(): (st: Store)
    ensures Valid(st) && Live(st) == []
  {
    Store(seq(Capacity, _ => None), 0)
  }

  /** `addSurvivor`: rejected with the store unchanged when all slots are in
      use; otherwise the survivor goes into slot `count` and `count` grows. */
  function AddSurvivor(st: Store, s: Survivor): (res: (Store, Result<(), SurvivorError>))
    requires Valid(st)
    ensures Valid(res.0)
    ensures st.count == Capacity ==> res == (st, Failure(LimitReached))
    ensures st.count < Capacity ==>
              && res.1.Success?
              && Live(res.0) == Live(st) + [s]
              && res.0.slots[..st.count] == st.slots[..st.count]
  {
    if st.count >= |st.slots| then (st, Failure(LimitReached))
    else
      var out := Store(st.slots[st.count := Some(s)], st.count + 1);
      assert Live(out) == Live(st) + [s];
      (out, Success(()))
  }

  /** `i` is the lowest position whose name equals `name` ignoring case. */
  predicate FirstNamedAt(xs: seq<Survivor>, name: string, i: int) {
    && 0 <= i < |xs|
    && EqualsIgnoreCase(xs[i].name, name)
    && forall j :: 0 <= j < i ==> !EqualsIgnoreCase(xs[j].name, name)
  }

  /** No survivor's name equals `name` ignoring case. */
  predicate NoneNamed(xs: seq<Survivor>, name: string) {
    forall j :: 0 <= j < |xs| ==> !EqualsIgnoreCase(xs[j].name, name)
  }

  /** `searchSurvivor`: the survivor in the lowest slot whose name equals
      `name` ignoring case, or nothing when no name does. */
  method SearchSurvivor(st: Store, name: string) returns (r: Option<Survivor>)
    requires Valid(st)
    ensures r.None? <==> NoneNamed(Live(st), name)
    ensures r.Some? ==> exists i :: FirstNamedAt(Live(st), name, i) && r.value == Live(st)[i]
  {
    var i := 0;
    while i < st.count
      invariant 0 <= i <= st.count
      invariant forall j :: 0 <= j < i ==> !EqualsIgnoreCase(st.slots[j].value.name, name)
    {
      if EqualsIgnoreCase(st.slots[i].value.name, name) {
        assert FirstNamedAt(Live(st), name, i);
        return st.slots[i];
      }
      i := i + 1;
    }
    return None;
  }

  /** `deleteSurvivor`: the first survivor named `name` ignoring case is
      removed by shifting the later slots left and clearing the old last slot;
      with no such survivor the store is unchanged and the error says so. */
  method DeleteSurvivor(st: Store, name: string) returns (out: Store, r: Result<Survivor, SurvivorError>)
    requires Valid(st)
    ensures Valid(out)
    ensures r.Failure? <==> NoneNamed(Live(st), name)
    ensures r.Failure? ==> out == st && r.error == NotInSystem
    ensures r.Success? ==>
              && out.count == st.count - 1
              && out.slots[st.count - 1] == None
              && exists i :: && FirstNamedAt(Live(st), name, i)
                             && r.value == Live(st)[i]
                             && out.slots[..i] == st.slots[..i]
                             && Live(out) == Live(st)[..i] + Live(st)[i + 1..]
  {
    var i := 0;
    while i < st.count
      invariant 0 <= i <= st.count
      invariant forall j :: 0 <= j < i ==> !EqualsIgnoreCase(st.slots[j].value.name, name)
    {
      if EqualsIgnoreCase(st.slots[i].value.name, name) {
        var a := ShiftLeft(st.slots, i, st.count);
        a := a[st.count - 1 := None];
        out := Store(a, st.count - 1);
        r := Success(st.slots[i].value);
        DeletedLive(st, i, out);
        assert FirstNamedAt(Live(st), name, i);
        return;
      }
      i := i + 1;
    }
    out := st;
    r := Failure(NotInSystem);
  }

  /** The inner loop of `deleteSurvivor`: each slot from `i` to `count - 2`
      takes the content of the slot after it. */
  method ShiftLeft(slots: seq<Option<Survivor>>, i: int, count: int) returns (a: seq<Option<Survivor>>)
    requires 0 <= i < count <= |slots|
    ensures |a| == |slots|
    ensures forall k :: 0 <= k < i ==> a[k] == slots[k]
    ensures forall k :: i <= k < count - 1 ==> a[k] == slots[k + 1]
    ensures forall k :: count - 1 <= k < |slots| ==> a[k] == slots[k]
  {
    a := slots;
    var j := i;
    while j < count - 1
      invariant i <= j <= count - 1
      invariant |a| == |slots|
      invariant forall k :: 0 <= k < i ==> a[k] == slots[k]
      invariant forall k :: i <= k < j ==> a[k] == slots[k + 1]
      invariant forall k :: j <= k < |slots| ==> a[k] == slots[k]
    {
      a := a[j := a[j + 1]];
      j := j + 1;
    }
  }

  /** The store left by the shift holds the old live survivors without the one
      at `i`, in their old order. */
  lemma DeletedLive(st: Store, i: int, out: Store)
    requires Valid(st) && 0 <= i < st.count
    requires out.count == st.count - 1 && |out.slots| == Capacity
    requires forall k :: 0 <= k < i ==> out.slots[k] == st.slots[k]
    requires forall k :: i <= k < st.count - 1 ==> out.slots[k] == st.slots[k + 1]
    requires forall k :: st.count - 1 <= k < Capacity ==> out.slots[k] == None
    ensures Valid(out)
    ensures out.slots[..i] == st.slots[..i]
    ensures Live(out) == Live(st)[..i] + Live(st)[i + 1..]
  {
    var xs := Live(st);
    var ys := Live(out);
    forall k | 0 <= k < |ys|
      ensures ys[k] == (xs[..i] + xs[i + 1..])[k]
    {
      if k < i {
        assert out.slots[k] == st.slots[k];
      } else {
        assert out.slots[k] == st.slots[k + 1];
      }
    }
  }

  /** The five lines `Survivor.display` prints. */
  function Card(s: Survivor): seq<string> {
    ["-----------------------------",
     "Name: " + s.name,
     "Location: " + s.location,
     "Health Status: " + s.healthStatus,
     "Assistance Needed: " + s.assistanceNeeded]
  }

  /** `displaySurvivors`: a notice when nobody is recorded; otherwise one card
      per slot in use, in array order. */
  method DisplaySurvivors(st: Store) returns (lines: seq<string>)
    requires Valid(st)
    ensures st.count == 0 ==> lines == ["No survivors recorded yet."]
    ensures st.count > 0 ==>
              && |lines| == 5 * st.count
              && forall k :: 0 <= k < st.count ==> lines[5 * k..5 * k + 5] == Card(Live(st)[k])
  {
    if st.count == 0 {
      return ["No survivors recorded yet."];
    }
    lines := [];
    var i := 0;
    while i < st.count
      invariant 0 <= i <= st.count
      invariant |lines| == 5 * i
      invariant forall k :: 0 <= k < i ==> lines[5 * k..5 * k + 5] == Card(Live(st)[k])
    {
      var card := Card(st.slots[i].value);
      forall k | 0 <= k < i
        ensures (lines + card)[5 * k..5 * k + 5] == Card(Live(st)[k])
      {
        assert (lines + card)[5 * k..5 * k + 5] == lines[5 * k..5 * k + 5];
      }
      assert (lines + card)[5 * i..5 * i + 5] == card;
      lines := lines + card;
      i := i + 1;
    }
  }

  /** `compareToIgnoreCase` of the names is not positive: `x` may stay before `y`. */
  predicate NameLe(x: Survivor, y: Survivor) {
    CompareIgnoreCase(x.name, y.name) <= 0
  }

  /** Names are non-decreasing ignoring case. */
  predicate SortedByName(xs: seq<Survivor>) {
    forall i, j :: 0 <= i < j < |xs| ==> NameLe(xs[i], xs[j])
  }

  /** The survivors whose name equals `name` ignoring case, in order. */
  function WithName(xs: seq<Survivor>, name: string): seq<Survivor>
    decreases |xs|
  {
    if |xs| == 0 then []
    else (if EqualsIgnoreCase(xs[0].name, name) then [xs[0]] else []) + WithName(xs[1..], name)
  }

  /** Survivors with equal names (ignoring case) appear in the same relative
      order in both sequences. */
  ghost predicate SameOrderPerName(xs: seq<Survivor>, ys: seq<Survivor>) {
    forall name :: WithName(xs, name) == WithName(ys, name)
  }

  lemma {:induction false} WithNameAppend(xs: seq<Survivor>, ys: seq<Survivor>, name: string)
    ensures WithName(xs + ys, name) == WithName(xs, name) + WithName(ys, name)
    decreases |xs|
  {
    if |xs| == 0 {
      assert xs + ys == ys;
    } else {
      var h := if EqualsIgnoreCase(xs[0].name, name) then [xs[0]] else [];
      assert (xs + ys)[0] == xs[0];
      assert (xs + ys)[1..] == xs[1..] + ys;
      assert WithName(xs + ys, name) == h + WithName(xs[1..] + ys, name);
      assert WithName(xs, name) == h + WithName(xs[1..], name);
      WithNameAppend(xs[1..], ys, name);
      assert h + (WithName(xs[1..], name) + WithName(ys, name))
          == (h + WithName(xs[1..], name)) + WithName(ys, name);
    }
  }

  /** Swapping two neighbours whose names differ ignoring case keeps, for every
      name, the order of the survivors carrying it. */
  lemma SwapKeepsOrderPerName(a: seq<Survivor>, j: int)
    requires 0 <= j < |a| - 1 && !EqualsIgnoreCase(a[j].name, a[j + 1].name)
    ensures SameOrderPerName(a[j := a[j + 1]][j + 1 := a[j]], a)
  {
    var b := a[j := a[j + 1]][j + 1 := a[j]];
    var p, s := a[..j], a[j + 2..];
    assert a == p + [a[j], a[j + 1]] + s;
    assert b == p + [a[j + 1], a[j]] + s;
    forall name
      ensures WithName(b, name) == WithName(a, name)
    {
      WithNameAppend(p + [a[j], a[j + 1]], s, name);
      WithNameAppend(p, [a[j], a[j + 1]], name);
      WithNameAppend(p + [a[j + 1], a[j]], s, name);
      WithNameAppend(p, [a[j + 1], a[j]], name);
      assert [a[j], a[j + 1]][1..] == [a[j + 1]];
      assert [a[j + 1], a[j]][1..] == [a[j]];
    }
  }

  /** What the inner loop of a pass keeps, with `j` the current position: the
      pass has only permuted the prefix `a[..bound]` of `a0` stably, and
      `a[j]` carries the largest name of `a[..j + 1]`. */
  ghost predicate PassInv(a: seq<Survivor>, a0: seq<Survivor>, xs: seq<Survivor>, bound: int, j: int) {
    && 0 <= j < bound <= |a| == |a0|
    && multiset(a) == multiset(xs) && SameOrderPerName(a, xs)
    && (SortedByName(xs) ==> a == xs)
    && (forall k :: 0 <= k < j ==> NameLe(a[k], a[j]))
    && (forall k, l :: 0 <= k < bound <= l < |a| ==> NameLe(a[k], a[l]))
    && (forall k :: bound <= k < |a| ==> a[k] == a0[k])
  }

  /** One compare-and-swap step of the inner loop. */
  lemma SwapStep(a: seq<Survivor>, a0: seq<Survivor>, xs: seq<Survivor>, bound: int, j: int)
    requires PassInv(a, a0, xs, bound, j) && j < bound - 1
    requires CompareIgnoreCase(a[j].name, a[j + 1].name) > 0
    ensures PassInv(a[j := a[j + 1]][j + 1 := a[j]], a0, xs, bound, j + 1)
  {
    var b := a[j := a[j + 1]][j + 1 := a[j]];
    CompareAntisymmetric(a[j].name, a[j + 1].name);
    CompareZeroIffEqualsIgnoreCase(a[j].name, a[j + 1].name);
    SwapKeepsOrderPerName(a, j);
    forall name
      ensures WithName(b, name) == WithName(xs, name)
    {
      assert WithName(b, name) == WithName(a, name);
    }
    forall k, l | 0 <= k < bound <= l < |b|
      ensures NameLe(b[k], b[l])
    {
      if k == j {
        assert b[k] == a[j + 1];
      } else if k == j + 1 {
        assert b[k] == a[j];
      } else {
        assert b[k] == a[k];
      }
    }
  }

  /** One step of the inner loop that leaves the pair in place. */
  lemma KeepStep(a: seq<Survivor>, a0: seq<Survivor>, xs: seq<Survivor>, bound: int, j: int)
    requires PassInv(a, a0, xs, bound, j) && j < bound - 1
    requires CompareIgnoreCase(a[j].name, a[j + 1].name) <= 0
    ensures PassInv(a, a0, xs, bound, j + 1)
  {
    forall k | 0 <= k < j
      ensures NameLe(a[k], a[j + 1])
    {
      CompareTransitive(a[k].name, a[j].name, a[j + 1].name);
    }
  }

  /** The body of `sortSurvivors` on the slots in use: bubble sort, swapping
      neighbours whose names compare greater ignoring case. The result is
      sorted by name, a permutation of the input that keeps survivors with
      equal names in their order, and an already sorted input comes back
      unchanged. */
  method BubbleSort(xs: seq<Survivor>) returns (a: seq<Survivor>)
    ensures |a| == |xs| && multiset(a) == multiset(xs)
    ensures SortedByName(a)
    ensures SameOrderPerName(a, xs)
    ensures SortedByName(xs) ==> a == xs
  {
    a := xs;
    var n := |a|;
    var i := 0;
    while i < n - 1
      invariant 0 <= i <= n && (n > 0 ==> i <= n - 1)
      invariant |a| == n && multiset(a) == multiset(xs)
      invariant SameOrderPerName(a, xs)
      invariant SortedByName(xs) ==> a == xs
      invariant forall k, l :: n - i <= k < l < n ==> NameLe(a[k], a[l])
      invariant forall k, l :: 0 <= k < n - i <= l < n ==> NameLe(a[k], a[l])
    {
      a := BubblePass(a, xs, n - i);
      i := i + 1;
    }
  }

  /** One pass of the outer loop over the unsorted prefix `a[..bound]`: it
      carries the largest name of the prefix to position `bound - 1`. */
  method BubblePass(a0: seq<Survivor>, ghost xs: seq<Survivor>, bound: int) returns (a: seq<Survivor>)
    requires 1 <= bound <= |a0|
    requires multiset(a0) == multiset(xs) && SameOrderPerName(a0, xs)
    requires SortedByName(xs) ==> a0 == xs
    requires forall k, l :: bound <= k < l < |a0| ==> NameLe(a0[k], a0[l])
    requires forall k, l :: 0 <= k < bound <= l < |a0| ==> NameLe(a0[k], a0[l])
    ensures |a| == |a0| && multiset(a) == multiset(xs) && SameOrderPerName(a, xs)
    ensures SortedByName(xs) ==> a == xs
    ensures forall k, l :: bound - 1 <= k < l < |a| ==> NameLe(a[k], a[l])
    ensures forall k, l :: 0 <= k < bound - 1 <= l < |a| ==> NameLe(a[k], a[l])
  {
    a := a0;
    var j := 0;
    assert PassInv(a, a0, xs, bound, j);
    while j < bound - 1
      invariant j <= bound - 1
      invariant PassInv(a, a0, xs, bound, j)
    {
      if CompareIgnoreCase(a[j].name, a[j + 1].name) > 0 {
        SwapStep(a, a0, xs, bound, j);
        a := a[j := a[j + 1]][j + 1 := a[j]];
      } else {
        KeepStep(a, a0, xs, bound, j);
      }
      j := j + 1;
    }
    PassDone(a, a0, xs, bound);
  }

  /** At the end of a pass the largest name of the prefix sits at `bound - 1`,
      so the sorted suffix has grown by one. */
  lemma PassDone(a: seq<Survivor>, a0: seq<Survivor>, xs: seq<Survivor>, bound: int)
    requires PassInv(a, a0, xs, bound, bound - 1)
    requires forall k, l :: bound <= k < l < |a0| ==> NameLe(a0[k], a0[l])
    ensures forall k, l :: bound - 1 <= k < l < |a| ==> NameLe(a[k], a[l])
    ensures forall k, l :: 0 <= k < bound - 1 <= l < |a| ==> NameLe(a[k], a[l])
  {
    forall k, l | bound <= k < l < |a|
      ensures NameLe(a[k], a[l])
    {
      assert a[k] == a0[k] && a[l] == a0[l];
    }
  }

  /** `sortSurvivors`: the slots in use are bubble sorted in place; `count`
      and the unused slots are untouched. */
  method SortSurvivors(st: Store) returns (out: Store)
    requires Valid(st)
    ensures Valid(out) && out.count == st.count
    ensures SortedByName(Live(out))
    ensures multiset(Live(out)) == multiset(Live(st))
    ensures SameOrderPerName(Live(out), Live(st))
    ensures SortedByName(Live(st)) ==> out == st
  {
    var sorted := BubbleSort(Live(st));
    out := Store(seq(Capacity, k requires 0 <= k < Capacity => if k < |sorted| then Some(sorted[k]) else None), st.count);
    assert Live(out) == sorted;
    if SortedByName(Live(st)) {
      assert out.slots == st.slots;
    }
  }
}
