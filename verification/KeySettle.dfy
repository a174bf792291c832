/** Waiting for the keys that an inference writes in the background: the store is polled until the new keys
    have stayed the same for a while. Polls are inputs: those that start before the deadline. */
module KeySettle {
  import opened Outcomes
  import opened KvArtifact

  /** The matching keys found by a poll, and the clock after it. */
  datatype Scan = Scan(keys: set<Bytes>, now: real)

  ghost predicate ClockRunsOn(scans: seq<Scan>) {
    forall i, j :: 0 <= i < j < |scans| ==> scans[i].now <= scans[j].now
  }

  function NewKeys(scans: seq<Scan>, before: set<Bytes>, i: nat): set<Bytes>
    requires i < |scans|
  {
    scans[i].keys - before
  }

  /** From poll `m` to poll `n` the new keys are the same, where polls without any are not counted. */
  ghost predicate Stay(scans: seq<Scan>, before: set<Bytes>, m: nat, n: nat)
    requires m <= n < |scans|
  {
    && NewKeys(scans, before, m) != {} && NewKeys(scans, before, n) == NewKeys(scans, before, m)
    && forall k :: m <= k <= n ==> NewKeys(scans, before, k) == {} || NewKeys(scans, before, k) == NewKeys(scans, before, m)
  }

  /** The new keys of poll `n` have stayed since a poll that is at least the quiet period older. */
  ghost predicate QuietSince(scans: seq<Scan>, before: set<Bytes>, quiet: real, m: nat, n: nat)
    requires m < n < |scans|
  {
    Stay(scans, before, m, n) && scans[n].now - scans[m].now >= quiet
  }

  ghost predicate QuietAt(scans: seq<Scan>, before: set<Bytes>, quiet: real, n: nat)
    requires n < |scans|
  {
    exists m :: 0 <= m < n && QuietSince(scans, before, quiet, m, n)
  }

  /** The first quiet poll from `i` on. */
  ghost function FirstQuiet(scans: seq<Scan>, before: set<Bytes>, quiet: real, i: nat): (r: Option<nat>)
    requires i <= |scans|
    ensures r.Some? ==> i <= r.value < |scans| && QuietAt(scans, before, quiet, r.value)
    ensures forall k :: i <= k < (if r.Some? then r.value else |scans|) ==> !QuietAt(scans, before, quiet, k)
    decreases |scans| - i
  {
    if i == |scans| then None
    else if QuietAt(scans, before, quiet, i) then Some(i)
    else FirstQuiet(scans, before, quiet, i + 1)
  }

  /** The keys settled on, or the timeout. */
  ghost function Settled(scans: seq<Scan>, before: set<Bytes>, quiet: real): Outcome<set<Bytes>> {
    var n := FirstQuiet(scans, before, quiet, 0);
    if n.Some? then Done(scans[n.value].keys) else Outcome({}, Some(TimeoutError))
  }

  /** Before poll `i` the last new keys are `last`, seen first at poll `m`; poll `p` before that, if any, saw
      others, and no poll in between saw any. */
  ghost predicate Streak(scans: seq<Scan>, before: set<Bytes>, last: set<Bytes>, p: int, m: nat, i: nat) {
    && -1 <= p < m < i <= |scans| && last != {} && NewKeys(scans, before, m) == last
    && (forall k :: m <= k < i ==> NewKeys(scans, before, k) == {} || NewKeys(scans, before, k) == last)
    && (forall k :: p < k < m ==> NewKeys(scans, before, k) == {})
    && (p >= 0 ==> NewKeys(scans, before, p) != {} && NewKeys(scans, before, p) != last)
  }

  /** A streak that goes on is quiet exactly when its first poll is old enough. */
  lemma QuietInStreak(scans: seq<Scan>, before: set<Bytes>, quiet: real, last: set<Bytes>, p: int, m: nat, i: nat)
    requires ClockRunsOn(scans) && Streak(scans, before, last, p, m, i) && i < |scans|
    requires NewKeys(scans, before, i) == last
    ensures QuietAt(scans, before, quiet, i) <==> scans[i].now - scans[m].now >= quiet
  {
    assert Stay(scans, before, m, i);
    assert scans[i].now - scans[m].now >= quiet ==> QuietSince(scans, before, quiet, m, i);
  }

  lemma NotQuiet(scans: seq<Scan>, before: set<Bytes>, quiet: real, i: nat)
    requires i < |scans|
    ensures NewKeys(scans, before, i) == {} ==> !QuietAt(scans, before, quiet, i)
    ensures (forall k :: 0 <= k < i ==> NewKeys(scans, before, k) != NewKeys(scans, before, i)) ==>
      !QuietAt(scans, before, quiet, i)
  {
  }

  /** Keys that differ from those of the streak are not quiet and begin the next streak. */
  lemma StreakEnds(scans: seq<Scan>, before: set<Bytes>, quiet: real, last: set<Bytes>, p: int, m: nat, i: nat)
    returns (q: nat)
    requires Streak(scans, before, last, p, m, i) && i < |scans|
    requires NewKeys(scans, before, i) != {} && NewKeys(scans, before, i) != last
    ensures !QuietAt(scans, before, quiet, i)
    ensures Streak(scans, before, NewKeys(scans, before, i), q, i, i + 1)
  {
    q := LastSeen(scans, before, m, i);
    assert NewKeys(scans, before, q) == last;
  }

  lemma StreakGoesOn(scans: seq<Scan>, before: set<Bytes>, last: set<Bytes>, p: int, m: nat, i: nat)
    requires Streak(scans, before, last, p, m, i) && i < |scans|
    requires NewKeys(scans, before, i) == {} || NewKeys(scans, before, i) == last
    ensures Streak(scans, before, last, p, m, i + 1)
  {
  }

  lemma FirstStreak(scans: seq<Scan>, before: set<Bytes>, i: nat)
    requires i < |scans| && NewKeys(scans, before, i) != {}
    requires forall k :: 0 <= k < i ==> NewKeys(scans, before, k) == {}
    ensures Streak(scans, before, NewKeys(scans, before, i), -1, i, i + 1)
  {
  }

  /** The last poll before `i` that saw new keys, given that poll `m` did. */
  lemma LastSeen(scans: seq<Scan>, before: set<Bytes>, m: nat, i: nat) returns (q: nat)
    requires m < i <= |scans| && NewKeys(scans, before, m) != {}
    ensures m <= q < i && NewKeys(scans, before, q) != {}
    ensures forall k :: q < k < i ==> NewKeys(scans, before, k) == {}
  {
    q := i - 1;
    while NewKeys(scans, before, q) == {}
      invariant m <= q < i && forall k :: q < k < i ==> NewKeys(scans, before, k) == {}
      decreases q
    {
      q := q - 1;
    }
  }

  /** Returns the keys of the first poll whose new keys have been quiet for long enough. A poll that sees no
      new keys does not restart the wait. */
  method WaitKeysSettle(scans: seq<Scan>, before: set<Bytes>, quietPeriod: real) returns (r: Outcome<set<Bytes>>)
    requires ClockRunsOn(scans)
    ensures r == Settled(scans, before, if quietPeriod < 0.0 then 0.0 else quietPeriod)
  {
    var quiet := if quietPeriod < 0.0 then 0.0 else quietPeriod;
    var lastNew: set<Bytes>, lastChange := {}, 0.0;
    var i := 0;
    ghost var p: int, m := -1, 0;
    while i < |scans|
      invariant 0 <= i <= |scans| && FirstQuiet(scans, before, quiet, 0) == FirstQuiet(scans, before, quiet, i)
      invariant lastNew == {} ==> forall k :: 0 <= k < i ==> NewKeys(scans, before, k) == {}
      invariant lastNew != {} ==> Streak(scans, before, lastNew, p, m, i) && lastChange == scans[m].now
    {
      var newKeys := NewKeys(scans, before, i);
      NotQuiet(scans, before, quiet, i);
      if newKeys == {} {
        if lastNew != {} {
          StreakGoesOn(scans, before, lastNew, p, m, i);
        }
        i := i + 1;
        continue;
      }
      if lastNew == {} || newKeys != lastNew {
        if lastNew == {} {
          FirstStreak(scans, before, i);
          p := -1;
        } else {
          p := StreakEnds(scans, before, quiet, lastNew, p, m, i);
        }
        lastNew, lastChange, m := newKeys, scans[i].now, i;
        i := i + 1;
        continue;
      }
      QuietInStreak(scans, before, quiet, lastNew, p, m, i);
      if scans[i].now - lastChange >= quiet {
        return Done(scans[i].keys);
      }
      StreakGoesOn(scans, before, lastNew, p, m, i);
      i := i + 1;
    }
    return Outcome({}, Some(TimeoutError));
  }

  /** A wait ends with the keys of a poll, some of them new, exactly when two polls at least the quiet period
      apart see the same new keys and none in between sees others; if there are no such polls it times out. */
  lemma SettledMeaning(scans: seq<Scan>, before: set<Bytes>, quiet: real)
    ensures var r := Settled(scans, before, quiet);
      && (r.failure == None || r.failure == Some(TimeoutError))
      && (r.failure == None <==> exists n :: 0 <= n < |scans| && QuietAt(scans, before, quiet, n))
      && (r.failure == None ==> r.result - before != {} && exists n :: 0 <= n < |scans| && scans[n].keys == r.result)
  {
    var n := FirstQuiet(scans, before, quiet, 0);
    if n.Some? {
      assert scans[n.value].keys - before == NewKeys(scans, before, n.value);
    }
  }

  /** Keys that were gone in between count as having stayed. */
  lemma GoneInBetween(keys: set<Bytes>)
    requires keys != {}
    ensures Settled([Scan(keys, 0.0), Scan({}, 1.0), Scan(keys, 2.0)], {}, 2.0) == Done(keys)
  {
    var scans := [Scan(keys, 0.0), Scan({}, 1.0), Scan(keys, 2.0)];
    assert NewKeys(scans, {}, 0) == keys && NewKeys(scans, {}, 1) == {} && NewKeys(scans, {}, 2) == keys;
    assert Stay(scans, {}, 0, 2) && QuietSince(scans, {}, 2.0, 0, 2);
    assert QuietAt(scans, {}, 2.0, 2);
    NotQuiet(scans, {}, 2.0, 0);
    NotQuiet(scans, {}, 2.0, 1);
    var n := FirstQuiet(scans, {}, 2.0, 0);
    assert n.Some? && n.value == 2;
  }
}
