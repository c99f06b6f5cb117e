/** The dependency download task: starting from a list of QuickMod
    descriptors, it dispatches the locators of every referenced mod that the
    mod list does not hold yet, each at most once, and as descriptors arrive
    it retires their locators and expands their own references, until no
    locator is pending. */
module QuickModDependencyDownload {
  import opened QuickModData

  /** What the task emits: setProgress, emitSucceeded and emitFailed. */
  datatype Signal = Progress(percent: int) | Succeeded | Failed(message: string)

  const FetchingStatus := "Fetching QuickMods files..."

  // ---------------------------------------------------------------------
  // Specification functions
  // ---------------------------------------------------------------------

  /** The locators one pass of requestDependenciesOf over `refs` dispatches,
      in order, when the mod list holds the uids `present` and the locators
      `requested` were dispatched before. */
  function Dispatched(refs: seq<Reference>, present: set<string>, requested: seq<Url>): (d: seq<Url>)
    ensures NoDups(d)
    ensures forall u :: u in d ==> u !in requested
    ensures |d| <= |refs|
    decreases |refs|
  {
    if refs == [] then []
    else
      var before := Dispatched(refs[..|refs| - 1], present, requested);
      var r := refs[|refs| - 1];
      if r.uid in present || r.locator in requested || r.locator in before then before
      else
        NoDupsAppend(before, [r.locator]);
        before + [r.locator]
  }

  /** The locators executeTask dispatches while expanding the seed mods in
      order. */
  function SeedDispatched(mods: seq<QuickMod>, present: set<string>, requested: seq<Url>): (d: seq<Url>)
    ensures NoDups(d)
    ensures forall u :: u in d ==> u !in requested
    decreases |mods|
  {
    if mods == [] then []
    else
      var before := SeedDispatched(mods[..|mods| - 1], present, requested);
      var next := Dispatched(mods[|mods| - 1].references, present, requested + before);
      NoDupsAppend(before, next);
      before + next
  }

  /** QList::removeAll: `s` without any occurrence of `x`. */
  function RemoveAll(s: seq<Url>, x: Url): (r: seq<Url>)
    ensures forall y :: y in r <==> y in s && y != x
    ensures NoDups(s) ==> NoDups(r)
    ensures NoDups(s) && x in s ==> |r| == |s| - 1
    ensures x !in s ==> r == s
  {
    if s == [] then []
    else
      var rest := RemoveAll(s[1..], x);
      assert NoDups(s) ==> NoDups(s[1..]) by {
        if NoDups(s) {
          forall i, j | 0 <= i < j < |s[1..]|
            ensures s[1..][i] != s[1..][j]
          {
            assert s[1..][i] == s[i + 1] && s[1..][j] == s[j + 1];
          }
        }
      }
      assert NoDups(s) ==> s[0] !in s[1..] by {
        if NoDups(s) {
          forall k | 0 <= k < |s[1..]|
            ensures s[1..][k] != s[0]
          {
            assert s[1..][k] == s[k + 1];
          }
        }
      }
      assert s == [s[0]] + s[1..];
      if s[0] == x then rest
      else
        assert NoDups(s) ==> NoDups([s[0]] + rest) by {
          if NoDups(s) {
            NoDupsAppend([s[0]], rest);
          }
        }
        [s[0]] + rest
  }

  /** The progress percentage as an integer ceiling: the least p with
      p * max >= 100 * current. */
  function CeilPercent(current: nat, max: nat): (p: nat)
    requires 0 < max && current <= max
    ensures p * max >= 100 * current
    ensures (p - 1) * max < 100 * current || current == 0
    ensures p <= 100
    ensures p == 0 <==> current == 0
    ensures current == max ==> p == 100
  {
    var p := (100 * current + max - 1) / max;
    CeilDivision(100 * current, max);
    assert (p - 1) * max == p * max - max;
    assert p * max < 101 * max;
    MulCancel(p, 101, max);
    assert current == 0 ==> p == 0 by {
      MulCancel(p, 1, max);
    }
    assert current == max ==> p == 100 by {
      MulCancel(p, 100, max);
    }
    p
  }

  /** (n + m - 1) / m is the ceiling of n / m. */
  lemma CeilDivision(n: nat, m: nat)
    requires 0 < m
    ensures var q := (n + m - 1) / m; q >= 0 && q * m >= n && q * m - m < n
  {
    var a := n + m - 1;
    var q := a / m;
    assert a == q * m + a % m;
    assert 0 <= a % m < m;
  }

  lemma MulCancel(x: int, y: int, m: nat)
    requires 0 < m
    ensures x < y <==> x * m < y * m
  {
    assert y * m - x * m == (y - x) * m;
  }

  /** The value m_lastSetPercentage takes in updateProgress, with
      `requestedCount` locators requested and `pendingCount` of them pending.
      With nothing requested the source divides zero by zero; the model
      keeps the previous value then. */
  function NextPercentage(last: int, requestedCount: nat, pendingCount: nat): (p: int)
    requires pendingCount <= requestedCount
    ensures p >= last
    ensures last <= 100 ==> p <= 100
    ensures last <= 100 && requestedCount > 0 && pendingCount == 0 ==> p == 100
    ensures requestedCount > 0 ==> p >= CeilPercent(requestedCount - pendingCount, requestedCount)
  {
    if requestedCount == 0 then last
    else
      var c := CeilPercent(requestedCount - pendingCount, requestedCount);
      if last < c then c else last
  }

  /** The signals updateProgress emits: the percentage, then success when
      nothing is pending. */
  function CompletionSignals(percent: int, pendingCount: nat): (signals: seq<Signal>) {
    [Progress(percent)] + if pendingCount == 0 then [Succeeded] else []
  }

  /** Every published percentage lies in 0..last, and they never decrease. */
  ghost predicate MonotoneProgress(signals: seq<Signal>, last: int) {
    && (forall i, j :: 0 <= i < j < |signals| && signals[i].Progress? && signals[j].Progress? ==>
         signals[i].percent <= signals[j].percent)
    && (forall i :: 0 <= i < |signals| && signals[i].Progress? ==> 0 <= signals[i].percent <= last)
  }

  // ---------------------------------------------------------------------
  // Lemmas
  // ---------------------------------------------------------------------

  /** A locator is dispatched exactly when it was not requested before and
      some reference to a uid the mod list does not hold names it; so a
      reference whose uid is present is never what causes a dispatch. */
  lemma {:induction false} DispatchedExactly(refs: seq<Reference>, present: set<string>, requested: seq<Url>, u: Url)
    ensures u in Dispatched(refs, present, requested) <==>
            u !in requested && exists j :: 0 <= j < |refs| && refs[j].uid !in present && refs[j].locator == u
    decreases |refs|
  {
    if refs != [] {
      var n := |refs| - 1;
      var init := refs[..n];
      DispatchedExactly(init, present, requested, u);
      var r := refs[n];
      if u in Dispatched(refs, present, requested) {
        if u in Dispatched(init, present, requested) {
          var j :| 0 <= j < |init| && init[j].uid !in present && init[j].locator == u;
          assert refs[j] == init[j];
        } else {
          assert refs[n].uid !in present && refs[n].locator == u;
        }
      } else if u !in requested {
        forall j | 0 <= j < |refs| && refs[j].uid !in present
          ensures refs[j].locator != u
        {
          if j < n {
            assert init[j] == refs[j];
          }
        }
      }
    }
  }

  /** Every reference to a uid the mod list does not hold has its locator
      requested after the pass, whether now or before. */
  lemma {:induction false} DispatchedCovers(refs: seq<Reference>, present: set<string>, requested: seq<Url>, j: nat)
    requires j < |refs| && refs[j].uid !in present
    ensures refs[j].locator in requested + Dispatched(refs, present, requested)
  {
    var u := refs[j].locator;
    if u !in requested {
      DispatchedExactly(refs, present, requested, u);
    }
  }

  /** Some reference in `refs` to a uid the mod list does not hold names
      `u`. */
  ghost predicate RefersAbsent(refs: seq<Reference>, present: set<string>, u: Url) {
    exists j :: 0 <= j < |refs| && refs[j].uid !in present && refs[j].locator == u
  }

  /** Some reference of some seed mod to a uid the mod list does not hold
      names `u`. */
  ghost predicate SeedRefersAbsent(mods: seq<QuickMod>, present: set<string>, u: Url) {
    exists i, j :: 0 <= i < |mods| && 0 <= j < |mods[i].references| &&
      mods[i].references[j].uid !in present && mods[i].references[j].locator == u
  }

  /** A seed reference names `u` exactly when one of the earlier seeds' does
      or one of the last seed's does. */
  lemma SeedRefersAbsentSplit(mods: seq<QuickMod>, present: set<string>, u: Url)
    requires mods != []
    ensures SeedRefersAbsent(mods, present, u) <==>
            SeedRefersAbsent(mods[..|mods| - 1], present, u) ||
            RefersAbsent(mods[|mods| - 1].references, present, u)
  {
    var n := |mods| - 1;
    var init := mods[..n];
    if SeedRefersAbsent(mods, present, u) {
      var i, j :| 0 <= i < |mods| && 0 <= j < |mods[i].references| &&
        mods[i].references[j].uid !in present && mods[i].references[j].locator == u;
      if i < n {
        assert init[i] == mods[i];
      }
    }
    if SeedRefersAbsent(init, present, u) {
      var i, j :| 0 <= i < |init| && 0 <= j < |init[i].references| &&
        init[i].references[j].uid !in present && init[i].references[j].locator == u;
      assert mods[i] == init[i];
    }
    if RefersAbsent(mods[n].references, present, u) {
      var j :| 0 <= j < |mods[n].references| &&
        mods[n].references[j].uid !in present && mods[n].references[j].locator == u;
      assert SeedRefersAbsent(mods, present, u);
    }
  }

  /** executeTask's expansion of the seeds dispatches a locator exactly when
      it was not requested before and some seed references it under a uid
      the mod list does not hold; references to present uids never cause a
      dispatch, and neither does being a seed. */
  lemma {:induction false} SeedDispatchedExactly(mods: seq<QuickMod>, present: set<string>, requested: seq<Url>, u: Url)
    ensures u in SeedDispatched(mods, present, requested) <==>
            u !in requested && SeedRefersAbsent(mods, present, u)
    decreases |mods|
  {
    if mods != [] {
      var n := |mods| - 1;
      var before := SeedDispatched(mods[..n], present, requested);
      SeedDispatchedExactly(mods[..n], present, requested, u);
      DispatchedExactly(mods[n].references, present, requested + before, u);
      SeedRefersAbsentSplit(mods, present, u);
    }
  }

  /** A seed is dispatched when another seed references it under a uid the
      mod list does not hold. */
  lemma SeedReferencedBySeed()
    ensures var a := QuickMod("A", "a", "", "", false, ForgeMod, "http://a", [Reference("B", "http://b")]);
      var b := QuickMod("B", "b", "", "", false, ForgeMod, "http://b", []);
      "http://b" in SeedDispatched([a, b], {}, [])
  {
    var a := QuickMod("A", "a", "", "", false, ForgeMod, "http://a", [Reference("B", "http://b")]);
    var b := QuickMod("B", "b", "", "", false, ForgeMod, "http://b", []);
    assert SeedRefersAbsent([a, b], {}, "http://b") by {
      assert [a, b][0].references[0] == Reference("B", "http://b");
    }
    SeedDispatchedExactly([a, b], {}, [], "http://b");
  }

  /** After executeTask's expansion, every seed reference to a uid the mod
      list does not hold has its locator requested, whether now or before. */
  lemma SeedDispatchedCovers(mods: seq<QuickMod>, present: set<string>, requested: seq<Url>, i: nat, j: nat)
    requires i < |mods| && j < |mods[i].references| && mods[i].references[j].uid !in present
    ensures mods[i].references[j].locator in requested + SeedDispatched(mods, present, requested)
  {
    var u := mods[i].references[j].locator;
    if u !in requested {
      assert SeedRefersAbsent(mods, present, u);
      SeedDispatchedExactly(mods, present, requested, u);
    }
  }

  /** The percentage is 100 only when nothing is pending, provided at most
      100 locators were requested. */
  lemma FullOnlyWhenDone(current: nat, max: nat)
    requires 0 < max <= 100 && current <= max
    ensures CeilPercent(current, max) == 100 <==> current == max
  {
    var p := CeilPercent(current, max);
    if current < max && current > 0 {
      assert 100 * current <= 99 * max;
      assert (p - 1) * max < 99 * max;
      assert (99 - (p - 1)) * max > 0;
    }
  }

  /** With more than 100 locators requested the ceiling reaches 100 while
      one is still pending. */
  lemma FullBeforeDone()
    ensures CeilPercent(199, 200) == 100
  {
  }

  lemma MonotoneProgressExtend(signals: seq<Signal>, last: int, p: int, pendingCount: nat)
    requires MonotoneProgress(signals, last)
    requires 0 <= last <= p
    ensures MonotoneProgress(signals + CompletionSignals(p, pendingCount), p)
  {
    var s := signals + CompletionSignals(p, pendingCount);
    forall i, j | 0 <= i < j < |s| && s[i].Progress? && s[j].Progress?
      ensures s[i].percent <= s[j].percent
    {
      if j >= |signals| {
        assert s[j] == Progress(p);
        if i < |signals| {
          assert s[i] == signals[i];
        }
      } else {
        assert s[i] == signals[i] && s[j] == signals[j];
      }
    }
    forall i | 0 <= i < |s| && s[i].Progress?
      ensures 0 <= s[i].percent <= p
    {
      if i < |signals| {
        assert s[i] == signals[i];
      }
    }
  }

  // ---------------------------------------------------------------------
  // The mod list, as the task sees it
  // ---------------------------------------------------------------------

  /** The process-wide QuickModsList: the uids of the mods it holds and a
      log of the registerMod calls made on it. */
  class QuickModsList {
    var present: set<string>
    ghost var registered: seq<Url>

    constructor (present: set<string>)
      ensures this.present == present && registered == []
    {
      this.present := present;
      registered := [];
    }

    /** registerMod: start fetching the descriptor at `url`. */
    method RegisterMod(url: Url)
      modifies this
      ensures present == old(present)
      ensures registered == old(registered) + [url]
    {
      registered := registered + [url];
    }

    /** addMod: a descriptor with this uid has been inserted; the list then
        notifies modAdded. */
    method AddMod(uid: string)
      modifies this
      ensures present == old(present) + {uid}
      ensures registered == old(registered)
    {
      present := present + {uid};
    }
  }

  // ---------------------------------------------------------------------
  // The task
  // ---------------------------------------------------------------------

  class QuickModDependencyDownloadTask {
    const store: QuickModsList
    var mods: seq<QuickMod>
    var requested: seq<Url>
    var pending: seq<Url>
    var lastSetPercentage: int
    var status: string
    /** The signals emitted since the current run started. */
    var signals: seq<Signal>

    /** requested and pending are duplicate-free, pending is within
        requested, and the progress published so far is monotone and within
        0..100. The store is shared with other clients, so the invariant
        says nothing about it; each method instead states the registerMod
        calls it makes. */
    ghost predicate Valid()
      reads this
    {
      && NoDups(requested)
      && NoDups(pending)
      && (forall u :: u in pending ==> u in requested)
      && |pending| <= |requested|
      && 0 <= lastSetPercentage <= 100
      && MonotoneProgress(signals, lastSetPercentage)
    }

    constructor (store: QuickModsList, mods: seq<QuickMod>)
      ensures this.store == store && this.mods == mods
      ensures requested == [] && pending == [] && lastSetPercentage == 0 && signals == []
      ensures Valid()
    {
      this.store := store;
      this.mods := mods;
      requested := [];
      pending := [];
      lastSetPercentage := 0;
      status := "";
      signals := [];
    }

    /** executeTask: reset pending and the percentage, expand every seed
        mod, signal success at once when nothing was dispatched, then
        publish progress. */
    method ExecuteTask()
      requires Valid()
      modifies this, store
      ensures Valid()
      ensures var d := SeedDispatched(old(mods), old(store.present), old(requested));
        && requested == old(requested) + d
        && pending == d
        && store.registered == old(store.registered) + d
        && signals == (if d == [] then [Succeeded] else []) + CompletionSignals(lastSetPercentage, |d|)
      ensures lastSetPercentage == NextPercentage(0, |requested|, |pending|)
      ensures mods == old(mods) && store.present == old(store.present)
      ensures status == FetchingStatus
    {
      pending := [];
      lastSetPercentage := 0;
      signals := [];
      status := FetchingStatus;
      ghost var d := SeedDispatched(mods, store.present, requested);
      RequestSeedDependencies();
      assert pending == d;
      if |pending| == 0 {
        signals := signals + [Succeeded];
      }
      assert Valid();
      UpdateProgress();
    }

    /** The foreach of executeTask: requestDependenciesOf for every seed mod,
        in order. */
    method RequestSeedDependencies()
      requires Valid()
      modifies this, store
      ensures Valid()
      ensures var d := SeedDispatched(mods, old(store.present), old(requested));
        && requested == old(requested) + d
        && pending == old(pending) + d
        && store.registered == old(store.registered) + d
      ensures mods == old(mods) && store.present == old(store.present)
      ensures lastSetPercentage == old(lastSetPercentage) && signals == old(signals) && status == old(status)
    {
      ghost var present, requested0, pending0, registered0 := store.present, requested, pending, store.registered;
      for i := 0 to |mods|
        invariant Valid()
        invariant mods == old(mods) && store.present == present
        invariant lastSetPercentage == old(lastSetPercentage) && signals == old(signals) && status == old(status)
        invariant requested == requested0 + SeedDispatched(mods[..i], present, requested0)
        invariant pending == pending0 + SeedDispatched(mods[..i], present, requested0)
        invariant store.registered == registered0 + SeedDispatched(mods[..i], present, requested0)
      {
        ghost var before := SeedDispatched(mods[..i], present, requested0);
        assert mods[..i + 1][..i] == mods[..i];
        assert SeedDispatched(mods[..i + 1], present, requested0)
            == before + Dispatched(mods[i].references, present, requested0 + before);
        RequestDependenciesOf(mods[i]);
      }
      assert mods[..|mods|] == mods;
    }

    /** modAdded: a descriptor arrived in the mod list. When its update URL
        is pending, retire it, keep the mod and expand its references; then
        publish progress. */
    method ModAdded(mod: QuickMod)
      requires Valid()
      modifies this, store
      ensures Valid()
      ensures var hit := mod.updateUrl in old(pending);
        var d := if hit then Dispatched(mod.references, old(store.present), old(requested)) else [];
        && requested == old(requested) + d
        && pending == (if hit then RemoveAll(old(pending), mod.updateUrl) else old(pending)) + d
        && mods == (if hit then old(mods) + [mod] else old(mods))
        && store.registered == old(store.registered) + d
      ensures forall u :: u in old(requested) && u !in old(pending) ==> u !in pending
      ensures lastSetPercentage == NextPercentage(old(lastSetPercentage), |requested|, |pending|)
      ensures signals == old(signals) + CompletionSignals(lastSetPercentage, |pending|)
      ensures store.present == old(store.present) && status == old(status)
    {
      if mod.updateUrl in pending {
        pending := RemoveAll(pending, mod.updateUrl);
        mods := mods + [mod];
        assert Valid();
        RequestDependenciesOf(mod);
      }
      UpdateProgress();
    }

    /** The store's error signal, which executeTask connects to emitFailed
        whatever the error is about. */
    method OnStoreError(message: string)
      requires Valid()
      modifies this
      ensures Valid()
      ensures signals == old(signals) + [Failed(message)]
      ensures requested == old(requested) && pending == old(pending) && mods == old(mods)
      ensures lastSetPercentage == old(lastSetPercentage) && status == old(status)
    {
      signals := signals + [Failed(message)];
      assert MonotoneProgress(signals, lastSetPercentage) by {
        forall i | 0 <= i < |signals| - 1
          ensures signals[i] == old(signals)[i]
        {
        }
      }
    }

    /** updateProgress: publish the larger of the last percentage and the
        ceiling of the finished share, then signal success when nothing is
        pending. */
    method UpdateProgress()
      requires Valid()
      modifies this
      ensures Valid()
      ensures lastSetPercentage == NextPercentage(old(lastSetPercentage), |requested|, |pending|)
      ensures lastSetPercentage >= old(lastSetPercentage)
      ensures signals == old(signals) + CompletionSignals(lastSetPercentage, |pending|)
      ensures requested == old(requested) && pending == old(pending) && mods == old(mods)
      ensures status == old(status)
    {
      LengthBound(pending, requested);
      var max := |requested|;
      var current := max - |pending|;
      if max > 0 {
        var percentage := CeilPercent(current, max);
        if lastSetPercentage < percentage {
          lastSetPercentage := percentage;
        }
      }
      MonotoneProgressExtend(signals, old(lastSetPercentage), lastSetPercentage, |pending|);
      signals := signals + [Progress(lastSetPercentage)];
      if |pending| == 0 {
        signals := signals + [Succeeded];
      }
    }

    /** requestDependenciesOf: for every reference of `mod` whose uid the
        mod list does not hold and whose locator was never requested,
        register the locator and add it to pending and requested. */
    method RequestDependenciesOf(mod: QuickMod)
      requires Valid()
      modifies this, store
      ensures Valid()
      ensures var d := Dispatched(mod.references, old(store.present), old(requested));
        && requested == old(requested) + d
        && pending == old(pending) + d
        && store.registered == old(store.registered) + d
      ensures forall u :: u in old(requested) && u !in old(pending) ==> u !in pending
      ensures store.present == old(store.present) && mods == old(mods)
      ensures lastSetPercentage == old(lastSetPercentage) && signals == old(signals) && status == old(status)
    {
      var refs := mod.references;
      for i := 0 to |refs|
        invariant store.present == old(store.present) && mods == old(mods)
        invariant lastSetPercentage == old(lastSetPercentage) && signals == old(signals) && status == old(status)
        invariant requested == old(requested) + Dispatched(refs[..i], store.present, old(requested))
        invariant pending == old(pending) + Dispatched(refs[..i], store.present, old(requested))
        invariant store.registered == old(store.registered) + Dispatched(refs[..i], store.present, old(requested))
      {
        assert refs[..i + 1][..i] == refs[..i];
        var r := refs[i];
        if r.uid in store.present {
          continue;
        }
        if r.locator !in requested {
          store.RegisterMod(r.locator);
          pending := pending + [r.locator];
          requested := requested + [r.locator];
        }
      }
      assert refs[..|refs|] == refs;
      ghost var d := Dispatched(refs, old(store.present), old(requested));
      NoDupsAppend(old(requested), d);
      NoDupsAppend(old(pending), d);
    }
  }

  /** Seeds [A], where A references B and C and B references C: the seed
      expansion dispatches B and C, and B's arrival dispatches nothing, so C
      is fetched once although it is referenced twice. */
  lemma SharedDependencyDispatchedOnce()
    ensures var a := QuickMod("A", "a", "", "", false, ForgeMod, "http://a",
                              [Reference("B", "http://b"), Reference("C", "http://c")]);
      SeedDispatched([a], {"A"}, []) == ["http://b", "http://c"]
    ensures Dispatched([Reference("C", "http://c")], {"A", "B"}, ["http://b", "http://c"]) == []
  {
    var refsA := [Reference("B", "http://b"), Reference("C", "http://c")];
    var a := QuickMod("A", "a", "", "", false, ForgeMod, "http://a", refsA);
    assert refsA[..1] == [Reference("B", "http://b")] && refsA[..1][..0] == [];
    assert Dispatched(refsA, {"A"}, []) == ["http://b", "http://c"];
    assert [a][..0] == [];
    assert [Reference("C", "http://c")][..0] == [];
  }

  /** The mod list is shared: a registerMod from another component between
      two task steps leaves the task usable, and the task's own calls are
      appended after it. */
  method SharedStoreScenario() {
    var store := new QuickModsList({});
    var b := QuickMod("B", "b", "", "", false, ForgeMod, "http://b", []);
    var a := QuickMod("A", "a", "", "", false, ForgeMod, "http://a", [Reference("B", "http://b")]);
    var task := new QuickModDependencyDownloadTask(store, [a]);
    store.RegisterMod("http://other");
    assert [a][..0] == [] && a.references[..0] == [];
    task.ExecuteTask();
    assert task.pending == ["http://b"];
    assert store.registered == ["http://other", "http://b"];
    store.RegisterMod("http://other2");
    store.AddMod("B");
    task.ModAdded(b);
    assert task.pending == [];
  }
}
