/** Finding a device by its volume ID, with a cache of the IDs computed so far. */
module VolumeIdCache {
  import opened Base

  type Path = string
  type VolumeId = seq<Byte>

  /** The two IDs of a device, as far as they could be computed. */
  type Ids = Option<(VolumeId, VolumeId)>

  datatype HostDevice = HostDevice(path: Path, ids: Ids)

  /** What opening a device computes: its IDs, None when it fails or does not compute both. */
  type OpenTest = Path -> Ids

  /** A mounted volume: its ID, its path, and whether the path is terminated inside its field. */
  datatype Mounted = Mounted(id: VolumeId, path: Path, terminated: bool)

  predicate Matches(ids: Ids, id: VolumeId) {
    ids.Some? && (ids.value.0 == id || ids.value.1 == id)
  }

  function Paths(devices: seq<HostDevice>): (r: seq<Path>)
    ensures |r| == |devices| && forall i | 0 <= i < |r| :: r[i] == devices[i].path
  {
    seq(|devices|, i requires 0 <= i < |devices| => devices[i].path)
  }

  predicate NoDuplicates(paths: seq<Path>) {
    forall i, j | 0 <= i < j < |paths| :: paths[i] != paths[j]
  }

  // -------------------------------------------------------------------------
  // The cache as a list
  // -------------------------------------------------------------------------

  /** The candidates that are still present, in their order. */
  function Kept(cache: seq<HostDevice>, present: seq<Path>): seq<HostDevice> {
    if cache == [] then []
    else Kept(cache[..|cache| - 1], present) + (if cache[|cache| - 1].path in present then [cache[|cache| - 1]] else [])
  }

  /** The cache after looking at the present devices in order: unknown ones are opened and appended. */
  function Extended(cache: seq<HostDevice>, present: seq<Path>, open: OpenTest): seq<HostDevice> {
    if present == [] then cache
    else
      var before := Extended(cache, present[..|present| - 1], open);
      var path := present[|present| - 1];
      if path in Paths(before) then before else before + [HostDevice(path, open(path))]
  }

  function Updated(cache: seq<HostDevice>, present: seq<Path>, open: OpenTest): seq<HostDevice> {
    Extended(Kept(cache, present), present, open)
  }

  /** The path of the first candidate that matches; empty when there is none. */
  function FirstMatch(cache: seq<HostDevice>, id: VolumeId): Path {
    if cache == [] then ""
    else if Matches(cache[0].ids, id) then cache[0].path
    else FirstMatch(cache[1..], id)
  }

  lemma {:induction false} KeptMembers(cache: seq<HostDevice>, present: seq<Path>)
    ensures forall d :: d in Kept(cache, present) <==> d in cache && d.path in present
  {
    if cache != [] {
      KeptMembers(cache[..|cache| - 1], present);
      assert cache == cache[..|cache| - 1] + [cache[|cache| - 1]];
    }
  }

  lemma PathsOfMembers(devices: seq<HostDevice>, p: Path)
    ensures p in Paths(devices) <==> exists d :: d in devices && d.path == p
  {
    if p in Paths(devices) {
      var i :| 0 <= i < |devices| && Paths(devices)[i] == p;
      assert devices[i] in devices;
    }
    if d :| d in devices && d.path == p {
      var i :| 0 <= i < |devices| && devices[i] == d;
      assert Paths(devices)[i] == p;
    }
  }

  lemma NoDuplicatesSplit(devices: seq<HostDevice>, d: HostDevice)
    ensures Paths(devices + [d]) == Paths(devices) + [d.path]
    ensures NoDuplicates(Paths(devices + [d])) <==> NoDuplicates(Paths(devices)) && d.path !in Paths(devices)
  {
    assert Paths(devices + [d]) == Paths(devices) + [d.path];
    var a, b := Paths(devices), Paths(devices) + [d.path];
    assert b[|a|] == d.path && forall i | 0 <= i < |a| :: b[i] == a[i];
  }

  /** Dropping the devices that are gone leaves the paths of the others once each. */
  lemma {:induction false} KeptFacts(cache: seq<HostDevice>, present: seq<Path>)
    requires NoDuplicates(Paths(cache))
    ensures NoDuplicates(Paths(Kept(cache, present)))
    ensures forall p :: p in Paths(Kept(cache, present)) <==> p in Paths(cache) && p in present
  {
    hide NoDuplicates;
    if cache == [] {
      assert Kept(cache, present) == cache;
    } else {
      var n := |cache| - 1;
      assert cache == cache[..n] + [cache[n]];
      NoDuplicatesSplit(cache[..n], cache[n]);
      KeptFacts(cache[..n], present);
      NoDuplicatesSplit(Kept(cache[..n], present), cache[n]);
      assert Kept(cache[..n], present) + [] == Kept(cache[..n], present);
    }
  }

  /** Every present path once, nothing else, known entries unchanged, new ones as opened now. */
  lemma {:induction false} ExtendedFacts(cache: seq<HostDevice>, present: seq<Path>, open: OpenTest)
    requires NoDuplicates(Paths(cache))
    ensures NoDuplicates(Paths(Extended(cache, present, open)))
    ensures forall p :: p in Paths(Extended(cache, present, open)) <==> p in Paths(cache) || p in present
    ensures forall d :: d in Extended(cache, present, open) <==>
              d in cache || (d.path in present && d.path !in Paths(cache) && d.ids == open(d.path))
  {
    hide NoDuplicates;
    if present != [] {
      var n := |present| - 1;
      ExtendedFacts(cache, present[..n], open);
      assert present == present[..n] + [present[n]];
      NoDuplicatesSplit(Extended(cache, present[..n], open), HostDevice(present[n], open(present[n])));
    }
  }

  /** After an update the cache holds every present path exactly once and nothing else. */
  lemma UpdatedHoldsPresent(cache: seq<HostDevice>, present: seq<Path>, open: OpenTest)
    requires NoDuplicates(Paths(cache))
    ensures NoDuplicates(Paths(Updated(cache, present, open)))
    ensures forall p :: p in Paths(Updated(cache, present, open)) <==> p in present
    ensures forall d :: d in Updated(cache, present, open) <==>
              d.path in present && (d in cache || (d.path !in Paths(cache) && d.ids == open(d.path)))
  {
    hide NoDuplicates;
    KeptFacts(cache, present);
    KeptMembers(cache, present);
    ExtendedFacts(Kept(cache, present), present, open);
  }

  // -------------------------------------------------------------------------
  // Runs
  // -------------------------------------------------------------------------

  /** The path under which the volume is mounted: None when it is not, empty when the stored path is not terminated. */
  function MountedPath(mounted: seq<Option<Mounted>>, id: VolumeId): Option<Path> {
    if mounted == [] then None
    else if mounted[0].Some? && mounted[0].value.id == id
    then Some(if mounted[0].value.terminated then mounted[0].value.path else "")
    else MountedPath(mounted[1..], id)
  }

  /**
   * One call: the ID searched for, the driver's list of mounted volumes if it can be had, the devices
   * present then, and what opening them gives then.
   */
  datatype Call = Call(id: VolumeId, mounted: Option<seq<Option<Mounted>>>, present: seq<Path>, open: OpenTest)

  /** The call gets as far as the cache: it is not answered, or given up, at the list of mounted volumes. */
  predicate Refreshes(c: Call) {
    c.mounted.Some? && MountedPath(c.mounted.value, c.id) == None
  }

  function Stepped(cache: seq<HostDevice>, c: Call): seq<HostDevice> {
    if Refreshes(c) then Updated(cache, c.present, c.open) else cache
  }

  function Answer(cache: seq<HostDevice>, c: Call): Path {
    if c.mounted == None then ""
    else
      match MountedPath(c.mounted.value, c.id)
      case Some(path) => path
      case None => FirstMatch(Stepped(cache, c), c.id)
  }

  function CacheAfter(calls: seq<Call>): seq<HostDevice> {
    if calls == [] then [] else Stepped(CacheAfter(calls[..|calls| - 1]), calls[|calls| - 1])
  }

  /** The calls of a run that get as far as the cache. */
  function Refreshing(calls: seq<Call>): (r: seq<Call>)
    ensures forall i | 0 <= i < |r| :: Refreshes(r[i])
  {
    if calls == [] then []
    else Refreshing(calls[..|calls| - 1]) + (if Refreshes(calls[|calls| - 1]) then [calls[|calls| - 1]] else [])
  }

  /** A device that is present in two refreshing calls in a row gives the same IDs in both. */
  ghost predicate StableIds(calls: seq<Call>) {
    var r := Refreshing(calls);
    forall i | 0 <= i < |r| - 1 :: SameIds(r[i], r[i + 1])
  }

  ghost predicate SameIds(c1: Call, c2: Call) {
    forall p | p in c1.present && p in c2.present :: c1.open(p) == c2.open(p)
  }

  /** The cache of any run holds what was present at its last refreshing call, and nothing before the first one. */
  lemma {:induction false} CacheHoldsPresent(calls: seq<Call>)
    ensures NoDuplicates(Paths(CacheAfter(calls)))
    ensures var r := Refreshing(calls);
            if r == [] then CacheAfter(calls) == []
            else forall p :: p in Paths(CacheAfter(calls)) <==> p in r[|r| - 1].present
  {
    if calls != [] {
      var n := |calls| - 1;
      CacheHoldsPresent(calls[..n]);
      UpdatedHoldsPresent(CacheAfter(calls[..n]), calls[n].present, calls[n].open);
    }
  }

  /** What opening the device gave when the cache last took it in; None when the cache does not have it. */
  function OpenedAs(calls: seq<Call>, p: Path): Option<Ids> {
    if calls == [] then None
    else
      var before, c := OpenedAs(calls[..|calls| - 1], p), calls[|calls| - 1];
      if !Refreshes(c) then before
      else if p !in c.present then None
      else if before.Some? then before
      else Some(c.open(p))
  }

  /** After every run the cache holds exactly the devices it took in and did not see go away, as opened then. */
  lemma {:induction false} CachedAsOpened(calls: seq<Call>)
    ensures forall d :: d in CacheAfter(calls) <==> OpenedAs(calls, d.path) == Some(d.ids)
  {
    if calls != [] {
      hide Updated, NoDuplicates, Paths;
      var n := |calls| - 1;
      CachedAsOpened(calls[..n]);
      CacheHoldsPresent(calls[..n]);
      UpdatedHoldsPresent(CacheAfter(calls[..n]), calls[n].present, calls[n].open);
      forall d: HostDevice
        ensures d in CacheAfter(calls) <==> OpenedAs(calls, d.path) == Some(d.ids)
      {
        CachedPath(calls[..n], d.path);
      }
    }
  }

  lemma CachedPath(calls: seq<Call>, p: Path)
    requires forall d :: d in CacheAfter(calls) <==> OpenedAs(calls, d.path) == Some(d.ids)
    ensures p in Paths(CacheAfter(calls)) <==> OpenedAs(calls, p).Some?
  {
    PathsOfMembers(CacheAfter(calls), p);
    if OpenedAs(calls, p).Some? {
      assert HostDevice(p, OpenedAs(calls, p).value) in CacheAfter(calls);
    }
  }

  function Last(calls: seq<Call>): Call
    requires Refreshing(calls) != []
  {
    Refreshing(calls)[|Refreshing(calls)| - 1]
  }

  /** What was opened is exactly what was present at the last refreshing call. */
  lemma OpenedArePresent(calls: seq<Call>, p: Path)
    requires Refreshing(calls) != []
    ensures OpenedAs(calls, p).Some? <==> p in Last(calls).present
  {
    hide Refreshing, NoDuplicates;
    CachedAsOpened(calls);
    CacheHoldsPresent(calls);
    CachedPath(calls, p);
  }

  /** The cache holds exactly what opening the devices present at this call gives. */
  ghost predicate Fresh(cache: seq<HostDevice>, c: Call) {
    forall d :: d in cache <==> d.path in c.present && d.ids == c.open(d.path)
  }

  /** The cache is fresh after a run exactly when every device present gives what it gave when it was taken in. */
  lemma FreshExactly(calls: seq<Call>)
    requires Refreshing(calls) != []
    ensures Fresh(CacheAfter(calls), Last(calls))
            <==> forall p | p in Last(calls).present :: OpenedAs(calls, p) == Some(Last(calls).open(p))
  {
    hide Refreshing, CacheAfter, OpenedAs;
    var cache, c := CacheAfter(calls), Last(calls);
    CachedAsOpened(calls);
    if Fresh(cache, c) {
      forall p | p in c.present
        ensures OpenedAs(calls, p) == Some(c.open(p))
      {
        assert HostDevice(p, c.open(p)) in cache;
      }
    }
    if forall p | p in c.present :: OpenedAs(calls, p) == Some(c.open(p)) {
      forall d: HostDevice
        ensures d in cache <==> d.path in c.present && d.ids == c.open(d.path)
      {
        OpenedArePresent(calls, d.path);
      }
    }
  }

  /** Leaving out the last call keeps the IDs stable. */
  lemma StableBefore(calls: seq<Call>)
    requires calls != [] && StableIds(calls)
    ensures var before, r := Refreshing(calls[..|calls| - 1]), Refreshing(calls);
            && StableIds(calls[..|calls| - 1])
            && (Refreshes(calls[|calls| - 1]) && before != [] ==> SameIds(before[|before| - 1], calls[|calls| - 1]))
  {
    var before, r := Refreshing(calls[..|calls| - 1]), Refreshing(calls);
    forall i | 0 <= i < |before| - 1
      ensures SameIds(before[i], before[i + 1])
    {
      assert SameIds(r[i], r[i + 1]);
    }
    if Refreshes(calls[|calls| - 1]) && before != [] {
      assert SameIds(r[|before| - 1], r[|before| - 1 + 1]);
    }
  }

  /** With stable IDs a device still gives what it gave when it was taken in. */
  lemma {:induction false} StableAsOpened(calls: seq<Call>, p: Path)
    requires StableIds(calls) && Refreshing(calls) != [] && p in Last(calls).present
    ensures OpenedAs(calls, p) == Some(Last(calls).open(p))
  {
    hide StableIds;
    var n := |calls| - 1;
    var before := Refreshing(calls[..n]);
    StableBefore(calls);
    if !Refreshes(calls[n]) {
      assert Last(calls) == Last(calls[..n]);
      StableAsOpened(calls[..n], p);
    } else {
      assert Last(calls) == calls[n];
      if before == [] {
        NeverOpened(calls[..n], p);
      } else {
        OpenedArePresent(calls[..n], p);
        if p in Last(calls[..n]).present {
          StableAsOpened(calls[..n], p);
        }
      }
    }
  }

  lemma {:induction false} NeverOpened(calls: seq<Call>, p: Path)
    requires Refreshing(calls) == []
    ensures OpenedAs(calls, p) == None
  {
    if calls != [] {
      NeverOpened(calls[..|calls| - 1], p);
    }
  }

  /** With stable IDs every cached entry is what opening the device gave at the last refreshing call. */
  lemma CacheIsFresh(calls: seq<Call>)
    requires StableIds(calls) && Refreshing(calls) != []
    ensures Fresh(CacheAfter(calls), Last(calls))
  {
    forall p | p in Last(calls).present
      ensures OpenedAs(calls, p) == Some(Last(calls).open(p))
    {
      StableAsOpened(calls, p);
    }
    FreshExactly(calls);
  }

  // -------------------------------------------------------------------------
  // Stability as it can be watched from outside, call by call
  // -------------------------------------------------------------------------

  /** A device that is present at two calls in a row, refreshing or not, gives the same IDs at both. */
  ghost predicate StableCallByCall(calls: seq<Call>) {
    forall i | 0 <= i < |calls| - 1 :: SameIds(calls[i], calls[i + 1])
  }

  /** Calls i and j refresh the cache, and none between them does. */
  predicate RefreshInARow(calls: seq<Call>, i: nat, j: nat) {
    && i < j < |calls| && Refreshes(calls[i]) && Refreshes(calls[j])
    && forall k | i < k < j :: !Refreshes(calls[k])
  }

  /** No device that is present at two refreshing calls in a row was absent from a call between them. */
  ghost predicate NoUnseenAbsence(calls: seq<Call>) {
    forall i: nat, j: nat, k: nat | RefreshInARow(calls, i, j) && i < k < j ::
      PresentBetween(calls[i], calls[k], calls[j])
  }

  predicate PresentBetween(c1: Call, between: Call, c2: Call) {
    forall p | p in c1.present && p in c2.present :: p in between.present
  }

  lemma {:induction false} SameThroughout(calls: seq<Call>, i: nat, j: nat, p: Path)
    requires StableCallByCall(calls) && i <= j < |calls|
    requires forall k | i <= k <= j :: p in calls[k].present
    ensures calls[i].open(p) == calls[j].open(p)
    decreases j - i
  {
    if i < j {
      SameThroughout(calls, i, j - 1, p);
      assert SameIds(calls[j - 1], calls[j - 1 + 1]);
    }
  }

  lemma PresentThroughout(calls: seq<Call>, i: nat, j: nat, p: Path)
    requires NoUnseenAbsence(calls) && RefreshInARow(calls, i, j)
    requires p in calls[i].present && p in calls[j].present
    ensures forall k | i <= k <= j :: p in calls[k].present
  {
    hide Refreshes;
    forall k: nat | i < k < j
      ensures p in calls[k].present
    {
      assert PresentBetween(calls[i], calls[k], calls[j]);
    }
  }

  /** The last refreshing call of a run, by its number. */
  lemma {:induction false} LastRefresh(calls: seq<Call>) returns (i: nat)
    requires Refreshing(calls) != []
    ensures i < |calls| && Refreshes(calls[i]) && calls[i] == Last(calls)
    ensures forall k | i < k < |calls| :: !Refreshes(calls[k])
  {
    var n := |calls| - 1;
    if Refreshes(calls[n]) {
      i := n;
    } else {
      assert Refreshing(calls) == Refreshing(calls[..n]);
      i := LastRefresh(calls[..n]);
    }
  }

  /** Stability call by call is stability between refreshing calls, as long as no device goes away unseen. */
  lemma {:induction false} WatchedIsStable(calls: seq<Call>)
    requires StableCallByCall(calls) && NoUnseenAbsence(calls)
    ensures StableIds(calls)
  {
    if calls != [] {
      var n := |calls| - 1;
      var before, r := Refreshing(calls[..n]), Refreshing(calls);
      WatchedBefore(calls);
      WatchedIsStable(calls[..n]);
      if Refreshes(calls[n]) && before != [] {
        SameAsLastRefresh(calls);
      }
      forall i | 0 <= i < |r| - 1
        ensures SameIds(r[i], r[i + 1])
      {
        if i < |before| - 1 {
          assert SameIds(before[i], before[i + 1]);
        }
      }
    }
  }

  lemma WatchedBefore(calls: seq<Call>)
    requires calls != [] && StableCallByCall(calls) && NoUnseenAbsence(calls)
    ensures StableCallByCall(calls[..|calls| - 1]) && NoUnseenAbsence(calls[..|calls| - 1])
  {
    hide Refreshes, SameIds, PresentBetween;
    var front := calls[..|calls| - 1];
    forall i | 0 <= i < |front| - 1
      ensures SameIds(front[i], front[i + 1])
    {
      assert SameIds(calls[i], calls[i + 1]);
    }
    forall i: nat, j: nat, k: nat | RefreshInARow(front, i, j) && i < k < j
      ensures PresentBetween(front[i], front[k], front[j])
    {
      RowGoesOn(calls, i, j);
      assert PresentBetween(calls[i], calls[k], calls[j]);
    }
  }

  lemma RowGoesOn(calls: seq<Call>, i: nat, j: nat)
    requires calls != [] && RefreshInARow(calls[..|calls| - 1], i, j)
    ensures RefreshInARow(calls, i, j)
  {
    hide Refreshes;
    var front := calls[..|calls| - 1];
    forall k | i < k < j
      ensures !Refreshes(calls[k])
    {
      assert front[k] == calls[k];
    }
  }

  lemma SameAsLastRefresh(calls: seq<Call>)
    requires calls != [] && StableCallByCall(calls) && NoUnseenAbsence(calls)
    requires Refreshes(calls[|calls| - 1]) && Refreshing(calls[..|calls| - 1]) != []
    ensures SameIds(Last(calls[..|calls| - 1]), calls[|calls| - 1])
  {
    hide Refreshes, Refreshing, StableCallByCall, NoUnseenAbsence;
    var n := |calls| - 1;
    var i := LastRefresh(calls[..n]);
    assert RefreshInARow(calls, i, n) by {
      forall k | i < k < n
        ensures !Refreshes(calls[k])
      {
        assert calls[..n][k] == calls[k];
      }
    }
    forall p | p in calls[i].present && p in calls[n].present
      ensures calls[i].open(p) == calls[n].open(p)
    {
      PresentThroughout(calls, i, n, p);
      SameThroughout(calls, i, n, p);
    }
  }

  /**
   * Stability call by call alone is not enough: a device that goes away and comes back with other IDs
   * while calls are answered from the list of mounted volumes keeps its old ones in the cache, and the
   * next call finds it under an ID that no device present has.
   */
  lemma UnseenAbsence() returns (calls: seq<Call>, now: Call)
    ensures StableCallByCall(calls + [now]) && Refreshes(now) && "" !in now.present
    ensures !Fresh(CacheAfter(calls + [now]), now)
    ensures Answer(CacheAfter(calls), now) == "a" && Scan(now.present, now.open, now.id) == ""
  {
    var first := Call([0], Some([]), ["a"], _ => Some(([0], [0])));
    var answered := Call([2], Some([Some(Mounted([2], "b", true))]), [], _ => None);
    now := Call([0], Some([]), ["a"], _ => Some(([1], [1])));
    calls := [first, answered];
    var entry := HostDevice("a", Some(([0], [0])));
    assert [first, answered][..1] == [first] && [first][..0] == [] && (calls + [now])[..2] == calls;
    assert OpenedAs(calls, "a") == OpenedAs([first], "a") == Some(entry.ids);
    assert OpenedAs(calls + [now], "a") == Some(entry.ids);
    CachedAsOpened(calls + [now]);
    assert entry in CacheAfter(calls + [now]);
    assert MatchedWhenOpened(calls + [now], "a", now.id);
    LookupByOpening(calls, now);
    ScanFacts(now.present, now.open, now.id);
  }

  lemma {:induction false} FirstMatchFacts(cache: seq<HostDevice>, id: VolumeId)
    requires "" !in Paths(cache)
    ensures FirstMatch(cache, id) == "" <==> forall d :: d in cache ==> !Matches(d.ids, id)
    ensures FirstMatch(cache, id) != "" ==>
              exists d :: d in cache && Matches(d.ids, id) && d.path == FirstMatch(cache, id)
  {
    if cache != [] {
      assert cache == [cache[0]] + cache[1..];
      assert Paths(cache)[0] == cache[0].path && Paths(cache)[1..] == Paths(cache[1..]);
      FirstMatchFacts(cache[1..], id);
    }
  }

  /** What opening every present device anew finds: the first path whose IDs match. */
  function Scan(present: seq<Path>, open: OpenTest, id: VolumeId): Path {
    if present == [] then "" else if Matches(open(present[0]), id) then present[0] else Scan(present[1..], open, id)
  }

  lemma {:induction false} ScanFacts(present: seq<Path>, open: OpenTest, id: VolumeId)
    requires "" !in present
    ensures Scan(present, open, id) == "" <==> forall p :: p in present ==> !Matches(open(p), id)
  {
    if present != [] {
      assert present == [present[0]] + present[1..];
      ScanFacts(present[1..], open, id);
    }
  }

  /** The answer is right for the devices as they are now. */
  ghost predicate AgreesWithScan(path: Path, now: Call) {
    && (path != "" <==> Scan(now.present, now.open, now.id) != "")
    && (path != "" ==> path in now.present && Matches(now.open(path), now.id))
  }

  /** p was taken in, and matched the ID searched for then. */
  predicate MatchedWhenOpened(calls: seq<Call>, p: Path, id: VolumeId) {
    OpenedAs(calls, p).Some? && Matches(OpenedAs(calls, p).value, id)
  }

  /** Whatever calls came before, a refreshing call finds a device exactly when one matched as it was taken in. */
  lemma LookupByOpening(calls: seq<Call>, now: Call)
    requires Refreshes(now) && "" !in now.present
    ensures var path, all := Answer(CacheAfter(calls), now), calls + [now];
            && (path != "" <==> exists p | p in now.present :: MatchedWhenOpened(all, p, now.id))
            && (path != "" ==> path in now.present && MatchedWhenOpened(all, path, now.id))
  {
    hide Updated, FirstMatch, NoDuplicates, Refreshes, OpenedAs, Matches;
    var all := calls + [now];
    assert all[..|calls|] == calls;
    var cache := CacheAfter(all);
    assert Last(all) == now;
    CachedAsOpened(all);
    CacheHoldsPresent(all);
    FirstMatchFacts(cache, now.id);
    NotAnsweredBefore(CacheAfter(calls), now);
    forall d | d in cache
      ensures d.path in now.present
    {
      OpenedArePresent(all, d.path);
    }
    forall p | p in now.present
      ensures OpenedAs(all, p).Some? && HostDevice(p, OpenedAs(all, p).value) in cache
    {
      OpenedArePresent(all, p);
    }
  }

  /**
   * The answer agrees with a fresh scan exactly when the device found still matches, and one is found when
   * some device present matches: when the ID searched for was on none of them as it was taken in, it is on none now.
   */
  lemma LookupAgreesExactly(calls: seq<Call>, now: Call)
    requires Refreshes(now) && "" !in now.present
    ensures var path, all := Answer(CacheAfter(calls), now), calls + [now];
            AgreesWithScan(path, now)
            <==> if exists p | p in now.present :: MatchedWhenOpened(all, p, now.id)
                 then Matches(now.open(path), now.id)
                 else forall p | p in now.present :: !Matches(now.open(p), now.id)
  {
    hide Refreshes, OpenedAs, Matches, CacheAfter, Answer, Scan;
    LookupByOpening(calls, now);
    ScanFacts(now.present, now.open, now.id);
  }

  /**
   * With stable IDs a refreshing call finds a device exactly when a fresh scan of those present does, and
   * one whose IDs at present match, whatever calls came before.
   */
  lemma LookupAgreesWithScan(calls: seq<Call>, now: Call)
    requires StableIds(calls + [now]) && Refreshes(now) && "" !in now.present
    ensures AgreesWithScan(Answer(CacheAfter(calls), now), now)
  {
    hide StableIds, OpenedAs, Matches, CacheAfter, Answer, Scan, Refreshes;
    var all := calls + [now];
    assert all[..|calls|] == calls;
    assert Last(all) == now;
    forall p | p in now.present
      ensures OpenedAs(all, p) == Some(now.open(p))
    {
      StableAsOpened(all, p);
    }
    LookupByOpening(calls, now);
    LookupAgreesExactly(calls, now);
  }

  lemma NotAnsweredBefore(cache: seq<HostDevice>, c: Call)
    requires Refreshes(c)
    ensures Answer(cache, c) == FirstMatch(Stepped(cache, c), c.id)
  {
  }

  // -------------------------------------------------------------------------
  // The routine
  // -------------------------------------------------------------------------

  lemma {:induction false} KeptSplit(a: seq<HostDevice>, b: seq<HostDevice>, present: seq<Path>)
    ensures Kept(a + b, present) == Kept(a, present) + Kept(b, present)
  {
    if b == [] {
      assert a + b == a;
    } else {
      assert (a + b)[..|a| + |b| - 1] == a + b[..|b| - 1];
      KeptSplit(a, b[..|b| - 1], present);
    }
  }

  /** A device behind those already checked joins them when present; else it can go without changing what is kept. */
  lemma KeptStep(front: seq<HostDevice>, d: HostDevice, rest: seq<HostDevice>, present: seq<Path>)
    requires Kept(front, present) == front
    ensures d.path in present ==> Kept(front + [d], present) == front + [d]
    ensures d.path !in present ==> Kept(front + [d] + rest, present) == Kept(front + rest, present)
  {
    KeptSplit(front + [d], rest, present);
    KeptSplit(front, [d], present);
    KeptSplit(front, rest, present);
    assert [d][..0] == [];
  }

  lemma KeptNothing(present: seq<Path>)
    ensures Kept([], present) == []
  {
  }

  /** The first mounted volume with the ID decides: its path, or nothing when the path is not terminated. */
  lemma {:induction false} FirstMountedDecides(mounted: seq<Option<Mounted>>, id: VolumeId, i: nat)
    requires i <= |mounted| && forall j | 0 <= j < i :: mounted[j].None? || mounted[j].value.id != id
    requires i < |mounted| ==> mounted[i].Some? && mounted[i].value.id == id
    ensures i == |mounted| ==> MountedPath(mounted, id) == None
    ensures i < |mounted| && mounted[i].value.terminated ==> MountedPath(mounted, id) == Some(mounted[i].value.path)
    ensures i < |mounted| && !mounted[i].value.terminated ==> MountedPath(mounted, id) == Some("")
  {
    if i > 0 {
      FirstMountedDecides(mounted[1..], id, i - 1);
    }
  }

  /** A call answered or given up at the list of mounted volumes leaves the cache alone. */
  lemma AnsweredAtTheList(cache: seq<HostDevice>, c: Call)
    ensures c.mounted == None ==> Answer(cache, c) == "" && Stepped(cache, c) == cache
    ensures c.mounted.Some? && MountedPath(c.mounted.value, c.id).Some? ==>
              Answer(cache, c) == MountedPath(c.mounted.value, c.id).value && Stepped(cache, c) == cache
  {
  }

  /** Either of the two IDs of a device matches, and nothing else. */
  lemma EitherIdMatches(a: VolumeId, b: VolumeId, id: VolumeId)
    ensures Matches(Some((a, b)), id) <==> id == a || id == b
    ensures !Matches(None, id)
  {
  }

  /** The lookup takes the first candidate that matches, in the order of the cache. */
  lemma {:induction false} FirstCandidateWins(cache: seq<HostDevice>, id: VolumeId, i: nat)
    requires i < |cache| && Matches(cache[i].ids, id)
    requires forall j | 0 <= j < i :: !Matches(cache[j].ids, id)
    ensures FirstMatch(cache, id) == cache[i].path
  {
    if i > 0 {
      FirstCandidateWins(cache[1..], id, i - 1);
    }
  }

  /** A refresh leaves the known devices in their order and in front, and takes the new ones in as they are listed. */
  lemma {:induction false} ExtendedInOrder(cache: seq<HostDevice>, present: seq<Path>, more: seq<Path>, open: OpenTest)
    ensures cache <= Extended(cache, present, open)
    ensures Extended(cache, present + more, open) == Extended(Extended(cache, present, open), more, open)
    decreases |more|
  {
    hide Extended, Paths;
    KeptInFront(cache, present, open);
    if more == [] {
      assert present + more == present;
      NothingNew(Extended(cache, present, open), open);
    } else {
      var n := |more| - 1;
      ExtendedInOrder(cache, present, more[..n], open);
      ExtendedLast(cache, present + more[..n], more[n], open);
      ExtendedLast(Extended(cache, present, open), more[..n], more[n], open);
      assert present + more[..n] + [more[n]] == present + more && more[..n] + [more[n]] == more;
    }
  }

  lemma NothingNew(cache: seq<HostDevice>, open: OpenTest)
    ensures Extended(cache, [], open) == cache
  {
  }

  lemma ExtendedLast(cache: seq<HostDevice>, present: seq<Path>, path: Path, open: OpenTest)
    ensures var before := Extended(cache, present, open);
            Extended(cache, present + [path], open)
            == if path in Paths(before) then before else before + [HostDevice(path, open(path))]
  {
    assert (present + [path])[..|present|] == present;
  }

  lemma {:induction false} KeptInFront(cache: seq<HostDevice>, present: seq<Path>, open: OpenTest)
    ensures cache <= Extended(cache, present, open)
  {
    hide Paths;
    if present != [] {
      KeptInFront(cache, present[..|present| - 1], open);
    }
  }

  class Finder {
    var volumeIdCandidates: seq<HostDevice>

    constructor ()
      ensures volumeIdCandidates == []
    {
      volumeIdCandidates := [];
    }

    method IsCandidate(path: Path) returns (found: bool)
      ensures found == (path in Paths(volumeIdCandidates))
    {
      found := false;
      for i := 0 to |volumeIdCandidates|
        invariant path !in Paths(volumeIdCandidates)[..i]
      {
        if volumeIdCandidates[i].path == path {
          return true;
        }
      }
      assert Paths(volumeIdCandidates)[..|volumeIdCandidates|] == Paths(volumeIdCandidates);
    }

    /** Removes the devices that do not exist any more. */
    method RemoveGone(newDevices: seq<Path>)
      modifies this
      ensures volumeIdCandidates == Kept(old(volumeIdCandidates), newDevices)
    {
      hide Kept;
      var it := 0;
      KeptNothing(newDevices);
      while it < |volumeIdCandidates|
        invariant 0 <= it <= |volumeIdCandidates|
        invariant Kept(volumeIdCandidates[..it], newDevices) == volumeIdCandidates[..it]
        invariant Kept(volumeIdCandidates, newDevices) == Kept(old(volumeIdCandidates), newDevices)
        decreases |volumeIdCandidates| - it
      {
        ghost var c, front, rest := volumeIdCandidates, volumeIdCandidates[..it], volumeIdCandidates[it + 1..];
        assert c == front + [c[it]] + rest;
        KeptStep(front, c[it], rest, newDevices);
        if volumeIdCandidates[it].path in newDevices {
          assert c[..it + 1] == front + [c[it]];
          it := it + 1;
        } else {
          volumeIdCandidates := volumeIdCandidates[..it] + volumeIdCandidates[it + 1..];
          assert volumeIdCandidates == front + rest && volumeIdCandidates[..it] == front;
        }
      }
      assert volumeIdCandidates[..it] == volumeIdCandidates;
    }

    /** Adds the devices not yet known, with the IDs that opening them gives. */
    method AddNew(newDevices: seq<Path>, open: OpenTest)
      modifies this
      ensures volumeIdCandidates == Extended(old(volumeIdCandidates), newDevices, open)
    {
      for k := 0 to |newDevices|
        invariant volumeIdCandidates == Extended(old(volumeIdCandidates), newDevices[..k], open)
      {
        assert newDevices[..k + 1][..k] == newDevices[..k];
        var found := IsCandidate(newDevices[k]);
        if !found {
          volumeIdCandidates := volumeIdCandidates + [HostDevice(newDevices[k], open(newDevices[k]))];
        }
      }
      assert newDevices[..|newDevices|] == newDevices;
    }

    /** mounted is None when the driver's list cannot be had; newDevices are the mountable devices present now. */
    method FindDeviceByVolumeID(volumeID: VolumeId, mounted: Option<seq<Option<Mounted>>>, newDevices: seq<Path>,
                                open: OpenTest)
      returns (path: Path)
      modifies this
      ensures volumeIdCandidates == Stepped(old(volumeIdCandidates), Call(volumeID, mounted, newDevices, open))
      ensures path == Answer(old(volumeIdCandidates), Call(volumeID, mounted, newDevices, open))
    {
      if mounted == None {
        return "";
      }
      for i := 0 to |mounted.value|
        invariant MountedPath(mounted.value[i..], volumeID) == MountedPath(mounted.value, volumeID)
      {
        if mounted.value[i].Some? && mounted.value[i].value.id == volumeID {
          return if mounted.value[i].value.terminated then mounted.value[i].value.path else "";
        }
      }
      RemoveGone(newDevices);
      AddNew(newDevices, open);
      for i := 0 to |volumeIdCandidates|
        invariant FirstMatch(volumeIdCandidates[i..], volumeID) == FirstMatch(volumeIdCandidates, volumeID)
      {
        if Matches(volumeIdCandidates[i].ids, volumeID) {
          return volumeIdCandidates[i].path;
        }
      }
      return "";
    }
  }
}
