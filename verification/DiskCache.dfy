/** DiskCache of diskcache.cc: resources that are locked, written, unlocked, read and evicted, with
    a running account of sizes and of open streams. */
module DiskCaches {

  datatype LockState = Unlocked | Locked | Unlocking

  datatype Entry = Entry(lockState: LockState, accessors: nat, size: nat, streams: nat, lastModified: int)

  /** Who has streams of one resource open: the indices open for writing, and a number of readers. */
  datatype Users = Users(writing: multiset<nat>, readers: nat)

  type Entries = map<string, Entry>
  type Sharing = map<string, Users>
  type Files = map<(string, nat), nat>   // the size of each cache file

  const NO_USERS := Users(multiset{}, 0)

  /** Neither locked nor being read. */
  predicate Lockable(e: Entry) {
    e.lockState != Locked && !(e.lockState == Unlocked && e.accessors > 0)
  }

  /** GetOrCreateEntry. */
  function EntryOf(m: Entries, id: string, now: int): Entry {
    if id in m then m[id] else Entry(Unlocked, 0, 0, 0, now)
  }

  function UsersOf(users: Sharing, id: string): Users {
    if id in users then users[id] else NO_USERS
  }

  /** The entry once the lock is given back. */
  function UnlockedEntry(e: Entry, now: int): Entry {
    if e.accessors > 0 then e.(lockState := Unlocking) else e.(lockState := Unlocked, lastModified := now)
  }

  /** The entry once stream `index`, whose file held `previous` bytes, is open for writing. */
  function OpenedEntry(e: Entry, index: nat, previous: nat): Entry {
    e.(streams := if e.streams > index + 1 then e.streams else index + 1,
       size := if previous > e.size then 0 else e.size - previous,
       accessors := e.accessors + 1)
  }

  /** The entry once a stream written to is closed with `size` bytes in its file. */
  function ClosedEntry(e: Entry, size: nat, now: int): Entry
    requires e.accessors > 0
  {
    var f := e.(accessors := e.accessors - 1, size := e.size + size);
    if e.lockState == Unlocking && f.accessors == 0 then f.(lockState := Unlocked, lastModified := now) else f
  }

  // ---------- Sums over the map ----------

  function SizeOf(e: Entry): nat { e.size }
  function AccessorsOf(e: Entry): nat { e.accessors }

  ghost function Total(m: Entries, f: Entry -> nat): nat {
    if m == map[] then 0
    else
      var k :| k in m;
      f(m[k]) + Total(m - {k}, f)
  }

  lemma {:induction false} TotalRemove(m: Entries, f: Entry -> nat, k: string)
    requires k in m
    ensures Total(m, f) == f(m[k]) + Total(m - {k}, f)
    decreases |m|
  {
    var j :| j in m && Total(m, f) == f(m[j]) + Total(m - {j}, f);
    if j != k {
      TotalRemove(m - {j}, f, k);
      TotalRemove(m - {k}, f, j);
      assert m - {j} - {k} == m - {k} - {j};
    }
  }

  lemma TotalUpdate(m: Entries, f: Entry -> nat, k: string, e: Entry)
    ensures Total(m[k := e], f) == Total(m, f) - (if k in m then f(m[k]) else 0) + f(e)
  {
    var n := m[k := e];
    TotalRemove(n, f, k);
    assert n - {k} == m - {k};
    if k in m {
      TotalRemove(m, f, k);
    } else {
      assert m - {k} == m;
    }
  }

  // ---------- The disk ----------

  function FileSize(files: Files, id: string, index: nat): nat {
    if (id, index) in files then files[(id, index)] else 0
  }

  /** What the files of one resource hold, those open for writing excepted. */
  function Stored(files: Files, id: string, streams: nat, writing: multiset<nat>): nat {
    if streams == 0 then 0
    else Stored(files, id, streams - 1, writing) +
         if streams - 1 in writing then 0 else FileSize(files, id, streams - 1)
  }

  lemma {:induction false} StoredSame(f: Files, g: Files, id: string, streams: nat, w: multiset<nat>, v: multiset<nat>)
    requires forall i :: 0 <= i < streams ==> (i in w <==> i in v)
    requires forall i :: 0 <= i < streams && i !in w ==> FileSize(f, id, i) == FileSize(g, id, i)
    ensures Stored(f, id, streams, w) == Stored(g, id, streams, v)
  {
    if streams > 0 {
      StoredSame(f, g, id, streams - 1, w, v);
    }
  }

  /** Opening or closing one stream for writing moves exactly its file in or out. */
  lemma {:induction false} StoredSplit(files: Files, id: string, streams: nat, writing: multiset<nat>, index: nat)
    requires index < streams && index !in writing
    ensures Stored(files, id, streams, writing) ==
            Stored(files, id, streams, writing + multiset{index}) + FileSize(files, id, index)
  {
    if index == streams - 1 {
      StoredSame(files, files, id, streams - 1, writing, writing + multiset{index});
    } else {
      StoredSplit(files, id, streams - 1, writing, index);
    }
  }

  lemma {:induction false} StoredGrow(files: Files, id: string, streams: nat, more: nat, writing: multiset<nat>)
    requires streams <= more
    requires forall i :: streams <= i < more ==> i in writing || FileSize(files, id, i) == 0
    ensures Stored(files, id, more, writing) == Stored(files, id, streams, writing)
  {
    if streams < more {
      StoredGrow(files, id, streams, more - 1, writing);
    }
  }

  // ---------- What every reachable state satisfies ----------

  /** total_size_ and total_accessors_ are the sums they stand for. */
  ghost predicate Accounted(entries: Entries, totalSize: nat, totalAccessors: nat) {
    totalSize == Total(entries, SizeOf) && totalAccessors == Total(entries, AccessorsOf)
  }

  /** Lock and open streams of one resource: writers only while locked or unlocking, readers only
      while unlocked, and unlocking only while something is still open. */
  predicate Consistent(e: Entry, u: Users) {
    && e.accessors == |u.writing| + u.readers
    && (e.lockState == Unlocked ==> u.writing == multiset{})
    && (e.lockState != Unlocked ==> u.readers == 0)
    && (e.lockState == Unlocking ==> e.accessors > 0)
    && (forall i :: i in u.writing ==> i < e.streams)
  }

  lemma LockConsistent(e: Entry, u: Users)
    requires Consistent(e, u) && (e.lockState == Unlocking || e.accessors == 0)
    ensures Consistent(e.(lockState := Locked), u) && u.readers == 0
  {
  }

  /** What may be locked, seen from the streams that are open. */
  lemma LockableIff(e: Entry, u: Users)
    requires Consistent(e, u)
    ensures Lockable(e) <==> e.lockState != Locked && u.readers == 0
  {
  }

  lemma WriterOpens(e: Entry, u: Users, index: nat, streams: nat, size: nat)
    requires Consistent(e, u) && e.lockState == Locked
    requires e.streams <= streams && index < streams
    ensures u.readers == 0
    ensures Consistent(e.(streams := streams, size := size, accessors := e.accessors + 1),
                       Users(u.writing + multiset{index}, 0))
  {
  }

  lemma WriterCloses(e: Entry, u: Users, index: nat, f: Entry)
    requires Consistent(e, u) && e.lockState != Unlocked && index in u.writing
    requires f.accessors == e.accessors - 1 && f.streams == e.streams
    requires f.lockState == if e.lockState == Unlocking && f.accessors == 0 then Unlocked else e.lockState
    ensures Consistent(f, Users(u.writing - multiset{index}, 0)) && index < e.streams
  {
    assert |u.writing - multiset{index}| == |u.writing| - 1;
  }

  lemma WritersOnly(e: Entry, u: Users)
    requires Consistent(e, u)
    ensures e.lockState == Locked ==> (e.accessors > 0 <==> u.writing != multiset{})
    ensures e.lockState == Unlocking ==> (e.accessors == 1 <==> |u.writing| == 1)
  {
    if e.lockState == Locked && e.accessors > 0 {
      assert |u.writing| > 0;
    }
  }

  /** What the lock state tells about an open stream, and the entry once a reader is gone. */
  lemma WhoIsOpen(e: Entry, u: Users, index: nat, writer: bool)
    requires Consistent(e, u) && if writer then index in u.writing else u.readers > 0
    ensures e.accessors > 0 && (writer <==> e.lockState != Unlocked)
    ensures !writer ==> u.writing == multiset{}
    ensures !writer ==> Consistent(e.(accessors := e.accessors - 1), Users(multiset{}, u.readers - 1))
  {
  }

  lemma ReaderOpens(e: Entry, u: Users)
    requires Consistent(e, u) && e.lockState == Unlocked
    ensures u.writing == multiset{}
    ensures Consistent(e.(accessors := e.accessors + 1), Users(multiset{}, u.readers + 1))
  {
  }

  predicate AllConsistent(entries: Entries, users: Sharing) {
    entries.Keys == users.Keys && forall id :: id in entries ==> Consistent(entries[id], users[id])
  }

  lemma KeysOf(entries: Entries, users: Sharing)
    requires AllConsistent(entries, users)
    ensures entries.Keys == users.Keys
  {
  }

  /** Each entry's size is what its closed files hold, there are no other files, and no file is open
      for writing twice. */
  ghost predicate Measured(entries: Entries, users: Sharing, files: Files) {
    && entries.Keys == users.Keys
    && (forall id :: id in entries ==>
          entries[id].size == Stored(files, id, entries[id].streams, users[id].writing))
    && (forall id, i :: id in entries ==> users[id].writing[i] <= 1)
    && (forall k :: k in files ==> k.0 in entries && k.1 < entries[k.0].streams)
  }

  /** Resources with open streams are still there, with the same streams open. */
  predicate OpenKept(before: Entries, was: Sharing, after: Entries, are: Sharing) {
    forall id :: id in before && before[id].accessors > 0 ==>
      id in after && after[id].accessors == before[id].accessors &&
      (id in was ==> id in are && are[id] == was[id])
  }

  /** Nothing but the loss of unlocked resources without open streams. */
  predicate Fewer(before: Entries, was: Sharing, after: Entries, are: Sharing) {
    && (forall id :: id in after ==> id in before && after[id] == before[id])
    && (forall id :: id in are ==> id in was && are[id] == was[id])
    && (forall id :: id in before && id !in after ==> Idle(before[id]))
  }

  lemma FewerOrSame(e: Entries, u: Sharing, id: string)
    ensures Fewer(e, u, e, u)
    ensures id in e && e[id].lockState == Unlocked && e[id].accessors == 0 ==> Fewer(e, u, e - {id}, u - {id})
  {
  }

  lemma FewerTwice(e0: Entries, u0: Sharing, e1: Entries, u1: Sharing,
                   e2: Entries, u2: Sharing)
    requires Fewer(e0, u0, e1, u1) && Fewer(e1, u1, e2, u2)
    ensures Fewer(e0, u0, e2, u2)
  {
  }

  lemma FewerAt(e0: Entries, u0: Sharing, e1: Entries, u1: Sharing, id: string)
    requires Fewer(e0, u0, e1, u1) && id in e0
    ensures if id in e1 then e1[id] == e0[id] else Idle(e0[id])
    ensures id in u1 ==> id in u0 && u1[id] == u0[id]
  {
  }

  lemma StillSame(e0: Entries, u0: Sharing, e1: Entries, u1: Sharing,
                  e2: Entries, u2: Sharing)
    requires Fewer(e0, u0, e1, u1) && Fewer(e1, u1, e2, u2)
    ensures forall id :: id in e1 ==> id in e0 && e1[id] == e0[id]
    ensures forall id :: id in e2 ==> id in e1 && e2[id] == e1[id]
  {
  }

  lemma FewerKeepsOpen(before: Entries, was: Sharing, after: Entries, are: Sharing)
    requires Fewer(before, was, after, are) && after.Keys == are.Keys
    ensures OpenKept(before, was, after, are)
  {
  }

  // ---------- The scan for a victim ----------

  predicate Idle(e: Entry) {
    e.lockState == Unlocked && e.accessors == 0
  }

  /** The order of keys: std::string's, character by character. */
  predicate Below(a: string, b: string)
    decreases |a|
  {
    b != "" && (a == "" || a[0] < b[0] || (a[0] == b[0] && Below(a[1..], b[1..])))
  }

  lemma {:induction false} BelowTotal(a: string, b: string)
    ensures a == b || Below(a, b) || Below(b, a)
    ensures !(Below(a, b) && Below(b, a)) && !Below(a, a)
    decreases |a|
  {
    if a != "" && b != "" && a[0] == b[0] {
      BelowTotal(a[1..], b[1..]);
      assert a == [a[0]] + a[1..] && b == [b[0]] + b[1..];
    }
    if a != "" {
      BelowTotal(a[1..], a[1..]);
    }
  }

  /** Below, without recursion: the first difference decides, and a text comes after its beginnings. */
  lemma {:induction false} BelowIff(a: string, b: string)
    ensures Below(a, b) <==> exists i: nat :: Differ(a, b, i)
    decreases |a|
  {
    if b != "" && a != "" && a[0] == b[0] {
      BelowIff(a[1..], b[1..]);
      forall i: nat
        ensures Differ(a, b, i + 1) <==> Differ(a[1..], b[1..], i)
      {
        DifferBehind(a, b, i);
      }
      assert !Differ(a, b, 0);
      if exists i: nat :: Differ(a, b, i) {
        var i: nat :| Differ(a, b, i);
        assert Differ(a[1..], b[1..], i - 1);
      }
    } else if b != "" {
      if Below(a, b) {
        assert Differ(a, b, 0);
      }
      forall i: nat | Differ(a, b, i)
        ensures i > 0 ==> a != "" && a[0] == b[0]
      {
        SameFirst(a, b, i);
      }
    }
  }

  lemma SameFirst(a: string, b: string, i: nat)
    requires Differ(a, b, i)
    ensures i > 0 ==> a != "" && b != "" && a[0] == b[0]
  {
    assert i > 0 ==> a[..i][0] == a[0] && b[..i][0] == b[0];
  }

  predicate Differ(a: string, b: string, i: nat) {
    i <= |a| && i < |b| && a[..i] == b[..i] && (i == |a| || a[i] < b[i])
  }

  lemma DifferBehind(a: string, b: string, i: nat)
    requires a != "" && b != "" && a[0] == b[0]
    ensures Differ(a, b, i + 1) <==> Differ(a[1..], b[1..], i)
  {
    if i + 1 <= |a| && i + 1 <= |b| {
      assert a[..i + 1] == [a[0]] + a[1..][..i] && b[..i + 1] == [b[0]] + b[1..][..i];
    }
  }

  lemma {:induction false} BelowTransitive(a: string, b: string, c: string)
    requires Below(a, b) && Below(b, c)
    ensures Below(a, c)
    decreases |a|
  {
    if a != "" && a[0] == b[0] == c[0] {
      BelowTransitive(a[1..], b[1..], c[1..]);
    }
  }

  /** The order in which the map is gone through. */
  predicate Enumerates(keys: seq<string>, m: Entries) {
    && (forall i :: 0 <= i < |keys| ==> keys[i] in m)
    && (forall id :: id in m ==> id in keys)
    && (forall i, j :: 0 <= i < j < |keys| ==> Below(keys[i], keys[j]))
  }

  predicate LastKey(m: Entries, id: string) {
    id in m && forall k :: k in m && k != id ==> Below(k, id)
  }

  predicate OnlyIdle(m: Entries, id: string) {
    id in m && Idle(m[id]) && forall k :: k in m && Idle(m[k]) ==> k == id
  }

  /** No idle entry is older than `id`. */
  predicate Oldest(m: Entries, id: string) {
    id in m && forall k :: k in m && Idle(m[k]) ==> m[id].lastModified <= m[k].lastModified
  }

  /** A busy entry that comes after an idle one. */
  predicate BusyBehind(m: Entries, b: string) {
    b in m && !Idle(m[b]) && exists f :: f in m && Idle(m[f]) && Below(f, b)
  }

  /** ... and is older than every idle one. */
  predicate InTheWay(m: Entries, b: string) {
    BusyBehind(m, b) && forall k :: k in m && Idle(m[k]) ==> m[b].lastModified < m[k].lastModified
  }

  datatype Victim = NoneIdle | PastEnd | Chosen(id: string)

  /** CheckLimit's scan.  It starts at the first idle entry and looks for the oldest from there on,
      busy or not; when the first idle entry is the last of all, and so the only one, it reads the
      entry past the end. */
  method FindVictim(keys: seq<string>, m: Entries) returns (v: Victim)
    requires Enumerates(keys, m)
    ensures v == NoneIdle <==> forall id :: id in m ==> !Idle(m[id])
    ensures v == PastEnd <==> exists id :: LastKey(m, id) && OnlyIdle(m, id)
    ensures v.Chosen? ==> Oldest(m, v.id) && (!Idle(m[v.id]) ==> BusyBehind(m, v.id))
    ensures forall b :: InTheWay(m, b) ==> v.Chosen? && !Idle(m[v.id])
  {
    hide Below;
    var first := FindIdle(keys, m);
    if first == |keys| {
      return NoneIdle;
    }
    IdleFrom(keys, m, first);
    forall b | BusyBehind(m, b)
      ensures exists j :: first < j < |keys| && keys[j] == b
    {
      BehindFirst(keys, m, first, b);
    }
    forall id | LastKey(m, id)
      ensures id == keys[|keys| - 1]
    {
      LastOfKeys(keys, m, id);
    }
    if first + 1 == |keys| {
      LastOfKeys(keys, m, keys[first]);
      assert OnlyIdle(m, keys[first]);
      return PastEnd;
    }
    Different(keys, m, first, |keys| - 1);
    var oldest := OldestFrom(keys, m, first);
    if oldest > first {
      assert Below(keys[first], keys[oldest]);
    }
    v := Chosen(keys[oldest]);
  }

  /** The second loop: from `first` on, the oldest. */
  method OldestFrom(keys: seq<string>, m: Entries, first: nat) returns (oldest: nat)
    requires Enumerates(keys, m) && first + 1 < |keys|
    ensures first <= oldest < |keys|
    ensures forall j :: first <= j < |keys| ==> m[keys[oldest]].lastModified <= m[keys[j]].lastModified
  {
    oldest := first + 1;
    for it := first to |keys|
      invariant first <= oldest < |keys|
      invariant forall j :: first <= j < it ==> m[keys[oldest]].lastModified <= m[keys[j]].lastModified
    {
      if m[keys[it]].lastModified < m[keys[oldest]].lastModified {
        oldest := it;
      }
    }
  }

  lemma IdleFrom(keys: seq<string>, m: Entries, first: nat)
    requires Enumerates(keys, m) && first < |keys| && forall j :: 0 <= j < first ==> !Idle(m[keys[j]])
    ensures forall id :: id in m && Idle(m[id]) ==> exists j :: first <= j < |keys| && keys[j] == id
  {
  }

  lemma Different(keys: seq<string>, m: Entries, i: nat, j: nat)
    requires Enumerates(keys, m) && i < j < |keys|
    ensures keys[i] != keys[j]
  {
    hide Below;
    BelowTotal(keys[i], keys[j]);
  }

  lemma LastOfKeys(keys: seq<string>, m: Entries, id: string)
    requires Enumerates(keys, m) && keys != []
    ensures LastKey(m, id) <==> id == keys[|keys| - 1]
  {
    hide Below;
    var last := keys[|keys| - 1];
    assert LastKey(m, last);
    if LastKey(m, id) && id != last {
      BelowTotal(id, last);
    }
  }

  /** What comes after an idle entry comes after the first one. */
  lemma BehindFirst(keys: seq<string>, m: Entries, first: nat, b: string)
    requires Enumerates(keys, m) && first < |keys| && BusyBehind(m, b)
    requires Idle(m[keys[first]]) && forall j :: 0 <= j < first ==> !Idle(m[keys[j]])
    ensures exists j :: first < j < |keys| && keys[j] == b
  {
    hide Below;
    var f :| f in m && Idle(m[f]) && Below(f, b);
    var i :| 0 <= i < |keys| && keys[i] == f;
    var j :| 0 <= j < |keys| && keys[j] == b;
    if j <= i {
      BelowTotal(f, b);
    }
  }

  method FindIdle(keys: seq<string>, m: Entries) returns (first: nat)
    requires Enumerates(keys, m)
    ensures first <= |keys| && (first < |keys| ==> Idle(m[keys[first]]))
    ensures forall j :: 0 <= j < first ==> !Idle(m[keys[j]])
  {
    first := 0;
    while first < |keys| && !Idle(m[keys[first]])
      invariant first <= |keys|
      invariant forall j :: 0 <= j < first ==> !Idle(m[keys[j]])
    {
      first := first + 1;
    }
  }

  /** What is gone was not used more recently than any idle entry that is left. */
  predicate LeastRecent(before: Entries, after: Entries) {
    forall id, k :: id in before && id !in after && k in after && Idle(after[k]) ==>
      before[id].lastModified <= after[k].lastModified
  }

  lemma LeastRecentTwice(a: Entries, b: Entries, c: Entries)
    requires LeastRecent(a, b) && LeastRecent(b, c)
    requires forall id :: id in b ==> id in a && b[id] == a[id]
    requires forall id :: id in c ==> id in b && c[id] == b[id]
    ensures LeastRecent(a, c)
  {
  }

  /** How one eviction ends: done; no idle entry; the oldest entry is busy; a file could not be
      deleted, though its entry is gone; the scan has left the map. */
  datatype Eviction = Evicted | AllBusy | OldestBusy | FileKept | RanOff

  datatype Limit = Within | GaveUp(why: Eviction)

  // ---------- What the sizes and ages decide ----------

  /** The sizes of idle entries last modified before `t`, not after `t`, and at any time. */
  function OlderThan(t: int): Entry -> nat {
    (e: Entry) => if Idle(e) && e.lastModified < t then e.size else 0
  }

  function NoNewer(t: int): Entry -> nat {
    (e: Entry) => if Idle(e) && e.lastModified <= t then e.size else 0
  }

  function IdleSize(): Entry -> nat {
    (e: Entry) => if Idle(e) then e.size else 0
  }

  lemma {:induction false} TotalZero(m: Entries, f: Entry -> nat)
    requires forall k :: k in m ==> f(m[k]) == 0
    ensures Total(m, f) == 0
    decreases |m|
  {
    if m != map[] {
      var k :| k in m;
      TotalRemove(m, f, k);
      TotalZero(m - {k}, f);
    }
  }

  lemma {:induction false} TotalSame(m: Entries, f: Entry -> nat, g: Entry -> nat)
    requires forall k :: k in m ==> f(m[k]) == g(m[k])
    ensures Total(m, f) == Total(m, g)
    decreases |m|
  {
    if m != map[] {
      var k :| k in m;
      TotalRemove(m, f, k);
      TotalRemove(m, g, k);
      TotalSame(m - {k}, f, g);
    }
  }

  /** Evicting the older idle entries is enough: `id` can stay. */
  ghost predicate Spared(m: Entries, total: nat, max: nat, id: string) {
    id in m && Idle(m[id]) && total - Total(m, OlderThan(m[id].lastModified)) <= max
  }

  /** Evicting all the other entries that are not newer is enough. */
  ghost predicate Sparable(m: Entries, total: nat, max: nat, id: string) {
    id in m && Idle(m[id]) && total - Total(m, NoNewer(m[id].lastModified)) + m[id].size <= max
  }

  /** No other idle entry has the time stamp of `id`. */
  predicate OwnTime(m: Entries, id: string) {
    id in m && forall k :: k in m && Idle(m[k]) && m[k].lastModified == m[id].lastModified ==> k == id
  }

  /** With different time stamps the two conditions are one. */
  lemma SparedIffSparable(m: Entries, total: nat, max: nat, id: string)
    requires OwnTime(m, id)
    ensures Spared(m, total, max, id) <==> Sparable(m, total, max, id)
  {
    if Idle(m[id]) {
      var t := m[id].lastModified;
      TotalRemove(m, OlderThan(t), id);
      TotalRemove(m, NoNewer(t), id);
      TotalSame(m - {id}, OlderThan(t), NoNewer(t));
    }
  }

  /** The newest idle entry stands behind all busy ones, and evicting all the others is not enough. */
  ghost predicate Doomed(m: Entries, total: nat, max: nat, k: string) {
    && k in m && Idle(m[k]) && total - Total(m, IdleSize()) + m[k].size > max
    && (forall j :: j in m && !Idle(m[j]) ==> Below(j, k))
    && (forall j :: j in m && Idle(m[j]) ==> m[j].lastModified <= m[k].lastModified)
  }

  ghost predicate SomeDoomed(m: Entries, total: nat, max: nat) {
    exists k :: Doomed(m, total, max, k)
  }

  /** A doomed entry that is the newest without doubt. */
  ghost predicate SurelyDoomed(m: Entries, total: nat, max: nat) {
    exists k :: OwnTime(m, k) && Doomed(m, total, max, k)
  }

  /** One step of the eviction: an idle entry that is oldest is gone. */
  ghost predicate Loses(m: Entries, total: nat, n: Entries, left: nat, v: string) {
    && Oldest(m, v) && Idle(m[v]) && n == m - {v} && total >= m[v].size && left == total - m[v].size
  }

  lemma SparedStep(m: Entries, total: nat, n: Entries, left: nat, max: nat, id: string, v: string)
    requires Loses(m, total, n, left, v) && total > max && Spared(m, total, max, id)
    ensures Spared(n, left, max, id)
  {
    var f := OlderThan(m[id].lastModified);
    if forall k :: k in m ==> f(m[k]) == 0 {
      TotalZero(m, f);
    }
    TotalRemove(m, f, v);
  }

  /** While `id` is there, what it takes to spare it does not change. */
  lemma SparableStep(m: Entries, total: nat, n: Entries, left: nat, max: nat, id: string, v: string)
    requires Loses(m, total, n, left, v) && id in n && Idle(m[id])
    ensures Sparable(n, left, max, id) <==> Sparable(m, total, max, id)
  {
    TotalRemove(m, NoNewer(m[id].lastModified), v);
  }

  lemma SparedInEnd(m: Entries, total: nat, max: nat, id: string)
    requires id in m && Idle(m[id]) && total <= max
    ensures Sparable(m, total, max, id)
  {
    TotalRemove(m, NoNewer(m[id].lastModified), id);
  }

  /** An entry that is spared is not the one that the scan runs off from. */
  lemma SparedNotLast(m: Entries, total: nat, max: nat, id: string, k: string)
    requires Spared(m, total, max, id) && OnlyIdle(m, k)
    ensures total <= max
  {
    TotalZero(m, OlderThan(m[id].lastModified));
  }

  lemma DoomedStep(m: Entries, total: nat, n: Entries, left: nat, max: nat, k: string, v: string)
    requires Loses(m, total, n, left, v) && OwnTime(m, k) && Doomed(m, total, max, k)
    requires !(exists j :: LastKey(m, j) && OnlyIdle(m, j))
    ensures OwnTime(n, k) && Doomed(n, left, max, k)
  {
    hide Below;
    TotalRemove(m, IdleSize(), v);
    if v == k {
      OnlyOneLeft(m, total, max, k);
    }
  }

  lemma OnlyOneLeft(m: Entries, total: nat, max: nat, k: string)
    requires Oldest(m, k) && OwnTime(m, k) && Doomed(m, total, max, k)
    ensures LastKey(m, k) && OnlyIdle(m, k)
  {
    hide Below;
  }

  /** The entry to watch while LockResource evicts: its own if that is idle, else a doomed one. */
  ghost function Watched(m: Entries, total: nat, max: nat, id: string): string
    requires id in m
  {
    if !Idle(m[id]) && SurelyDoomed(m, total, max) then
      var k :| OwnTime(m, k) && Doomed(m, total, max, k); k
    else id
  }

  lemma WatchedDoomed(m: Entries, total: nat, max: nat, id: string)
    requires id in m
    ensures Idle(m[id]) ==> Watched(m, total, max, id) == id
    ensures !Idle(m[id]) && SurelyDoomed(m, total, max) ==>
              var k := Watched(m, total, max, id); OwnTime(m, k) && Doomed(m, total, max, k)
  {
  }

  lemma WithinLimit(m: Entries, total: nat, max: nat, id: string)
    requires id in m
    ensures total <= max && Idle(m[id]) ==> Spared(m, total, max, id) && Sparable(m, total, max, id)
    ensures Spared(m, total, max, id) ==> Idle(m[id])
    ensures SurelyDoomed(m, total, max) ==> total > max
    ensures OwnTime(m, id) ==> (Spared(m, total, max, id) <==> Sparable(m, total, max, id))
  {
    if total <= max && Idle(m[id]) {
      SparedInEnd(m, total, max, id);
    }
    forall k | Doomed(m, total, max, k)
      ensures total > max
    {
      DoomedExceeds(m, total, max, k);
    }
    if OwnTime(m, id) {
      SparedIffSparable(m, total, max, id);
    }
  }

  lemma DoomedExceeds(m: Entries, total: nat, max: nat, k: string)
    requires Doomed(m, total, max, k)
    ensures total > max
  {
    TotalRemove(m, IdleSize(), k);
  }

  /** What the sum of idle sizes has to do with the total is not changed by evictions. */
  lemma BusyTotalStep(m: Entries, total: nat, n: Entries, left: nat, v: string)
    requires Loses(m, total, n, left, v)
    ensures total - Total(m, IdleSize()) == left - Total(n, IdleSize())
  {
    TotalRemove(m, IdleSize(), v);
  }

  /** Where the scan leaves the map, that entry was doomed from the beginning. */
  lemma DoomedFromStart(m: Entries, total: nat, n: Entries, left: nat, max: nat, k: string)
    requires left > max && LastKey(n, k) && OnlyIdle(n, k)
    requires total - Total(m, IdleSize()) == left - Total(n, IdleSize())
    requires LeastRecent(m, n) && forall id :: id in n ==> id in m && n[id] == m[id]
    requires forall id :: id in m && id !in n ==> Idle(m[id])
    ensures Doomed(m, total, max, k)
  {
    hide Below;
    TotalRemove(n, IdleSize(), k);
    TotalZero(n - {k}, IdleSize());
  }

  datatype LockResult = Granted | Refused | Undefined

  class DiskCache {
    const maxCache: nat
    var entries: Entries
    var totalSize: nat
    var totalAccessors: nat
    var files: Files
    ghost var users: Sharing
    ghost var spoiled: bool    // some DeleteFile has failed, or a stream was opened twice for writing

    ghost predicate Valid()
      reads this
    {
      && Accounted(entries, totalSize, totalAccessors)
      && AllConsistent(entries, users)
      && (!spoiled ==> Measured(entries, users, files))
    }

    constructor (maxCache: nat)
      ensures Valid() && entries == map[] && this.maxCache == maxCache && !spoiled
    {
      this.maxCache := maxCache;
      entries, totalSize, totalAccessors, files := map[], 0, 0, map[];
      users, spoiled := map[], false;
    }

    lemma StillKeyed()
      requires Valid()
      ensures entries.Keys == users.Keys
    {
    }

    lemma EntryConsistent(id: string)
      requires Valid() && (id in entries || id in users)
      ensures id in entries && id in users && entries.Keys == users.Keys && Consistent(entries[id], users[id])
    {
    }

    /** Replaces one entry, keeping the account. */
    method SetEntry(id: string, e: Entry, ghost u: Users)
      requires Accounted(entries, totalSize, totalAccessors) && AllConsistent(entries, users)
      requires Consistent(e, u)
      requires id !in entries ==> e.size == e.accessors == 0
      modifies this`entries, this`users, this`totalSize, this`totalAccessors
      ensures Accounted(entries, totalSize, totalAccessors) && AllConsistent(entries, users)
      ensures entries == old(entries)[id := e] && users == old(users)[id := u]
      ensures id !in old(entries) ==> totalSize == old(totalSize)
      ensures id in old(entries) ==> totalSize == old(totalSize) - old(entries)[id].size + e.size
    {
      TotalUpdate(entries, SizeOf, id, e);
      TotalUpdate(entries, AccessorsOf, id, e);
      if id in entries {
        TotalRemove(entries, SizeOf, id);
        TotalRemove(entries, AccessorsOf, id);
        totalSize := totalSize - entries[id].size + e.size;
        totalAccessors := totalAccessors - entries[id].accessors + e.accessors;
      }
      entries, users := entries[id := e], users[id := u];
    }

    method DeleteFiles(id: string, streams: nat) returns (success: bool)
      modifies this`files
      ensures forall k :: k in files ==> k in old(files) && files[k] == old(files)[k]
      ensures forall k :: k in old(files) && k.0 != id ==> k in files
      ensures success <==> forall i :: 0 <= i < streams ==> (id, i) !in files
    {
      success := true;
      for index := 0 to streams
        invariant forall k :: k in files ==> k in old(files) && files[k] == old(files)[k]
        invariant forall k :: k in old(files) && k.0 != id ==> k in files
        invariant success <==> forall i :: 0 <= i < index ==> (id, i) !in files
      {
        if (id, index) in files {
          var deleted: bool := *;
          if deleted {
            files := files - {(id, index)};
          } else {
            success := false;
          }
        }
      }
    }

    /** DeleteResource: only an unlocked resource without open streams is erased. */
    method DeleteResource(id: string) returns (success: bool)
      requires Valid()
      modifies this
      ensures Valid() && Fewer(old(entries), old(users), entries, users)
      ensures id !in old(entries) ==> success && entries == old(entries)
      ensures id in old(entries) ==>
                if !Idle(old(entries)[id]) then !success && entries == old(entries)
                else entries == old(entries) - {id} && (spoiled <==> old(spoiled) || !success)
      ensures entries == old(entries) ==> files == old(files) && totalSize == old(totalSize)
      ensures id in old(entries) && id !in entries ==>
                old(totalSize) >= old(entries)[id].size && totalSize == old(totalSize) - old(entries)[id].size
    {
      hide Accounted, Measured, Consistent, Fewer;
      FewerOrSame(entries, users, id);
      if id !in entries {
        return true;
      }
      if entries[id].lockState != Unlocked || entries[id].accessors > 0 {
        return false;
      }
      success := DeleteFiles(id, entries[id].streams);
      if !success {
        spoiled := true;
      } else if !spoiled {
        MeasureErase(entries, users, old(files), files, id);
      }
      Erase(id);
    }

    method Erase(id: string)
      requires id in entries && id in users
      requires entries[id].accessors == 0
      requires Accounted(entries, totalSize, totalAccessors) && AllConsistent(entries, users)
      modifies this`entries, this`users, this`totalSize
      ensures Accounted(entries, totalSize, totalAccessors) && AllConsistent(entries, users)
      ensures entries == old(entries) - {id} && users == old(users) - {id}
      ensures old(totalSize) >= old(entries)[id].size && totalSize == old(totalSize) - old(entries)[id].size
    {
      TotalRemove(entries, SizeOf, id);
      TotalRemove(entries, AccessorsOf, id);
      totalSize := totalSize - entries[id].size;
      entries, users := entries - {id}, users - {id};
    }

    /** CheckLimit.  It comes to an end; what it evicts is idle, and the least recently used of what
        was idle; `Within` is returned only with the size back within the limit.  For any entry
        `keep` the state before the call tells whether it stays, and whether the scan leaves the
        map there. */
    method CheckLimit(ghost keep: string) returns (r: Limit)
      requires Valid()
      modifies this
      ensures Valid() && Fewer(old(entries), old(users), entries, users) && LeastRecent(old(entries), entries)
      ensures r == Within ==> totalSize <= maxCache
      ensures old(totalSize) <= maxCache ==> r == Within && entries == old(entries)
      ensures WhyGivenUp(r) && LimitVerdict(old(entries), old(totalSize), keep, r)
    {
      ghost var e0, u0, t0 := entries, users, totalSize;
      FewerOrSame(entries, users, "");
      assert LeastRecent(entries, entries);
      hide Accounted, Consistent, Measured, AllConsistent, Fewer, LeastRecent, OnlyIdle, Loses, LastKey, Oldest,
           BusyBehind, InTheWay, ForeseenAt, LimitVerdict;
      while totalSize > maxCache
        invariant Valid() && Fewer(e0, u0, entries, users) && LeastRecent(e0, entries)
        invariant t0 <= maxCache ==> entries == e0 && totalSize == t0
        invariant Foreseen(e0, t0, keep)
        decreases |entries|
      {
        ghost var before, was, total := entries, users, totalSize;
        var evicted;
        ghost var v;
        evicted, v := EvictOne();
        FewerTwice(e0, u0, before, was, entries, users);
        StillSame(e0, u0, before, was, entries, users);
        LeastRecentTwice(e0, before, entries);
        if entries != before {
          ForeseenStep(e0, t0, keep, before, total, v);
        }
        if evicted != Evicted {
          GivenUp(e0, u0, t0, keep, evicted);
          return GaveUp(evicted);
        }
      }
      InTheEnd(e0, t0, keep);
      return Within;
    }

    /** The size is within the limit, or there is a reason why it is not. */
    ghost predicate Settled()
      reads this
    {
      totalSize <= maxCache || WhyGivenUp(GaveUp(AllBusy)) || WhyGivenUp(GaveUp(OldestBusy)) ||
      WhyGivenUp(GaveUp(FileKept)) || WhyGivenUp(GaveUp(RanOff))
    }

    /** CheckLimit, where only its effect matters. */
    method Trim() returns (ranOff: bool)
      requires Valid()
      modifies this
      ensures Valid() && Fewer(old(entries), old(users), entries, users)
      ensures ranOff ==> SomeDoomed(old(entries), old(totalSize), maxCache)
      ensures Settled()
    {
      hide Accounted, AllConsistent, Measured, Fewer, LeastRecent, SomeDoomed, WhyGivenUp;
      var r := CheckLimit("");
      SettledBy(r);
      ranOff := r == GaveUp(RanOff);
    }

    lemma SettledBy(r: Limit)
      requires WhyGivenUp(r) && (r == Within ==> totalSize <= maxCache)
      ensures Settled()
    {
    }

    /** What a CheckLimit that gave up has found. */
    ghost predicate WhyGivenUp(r: Limit)
      reads this
    {
      r.GaveUp? ==>
        match r.why
        case Evicted => false
        case AllBusy => totalSize > maxCache && forall id :: id in entries ==> !Idle(entries[id])
        case OldestBusy => totalSize > maxCache && exists b :: Oldest(entries, b) && BusyBehind(entries, b)
        case FileKept => spoiled
        case RanOff => totalSize > maxCache && exists k :: LastKey(entries, k) && OnlyIdle(entries, k)
    }

    /** What the state before CheckLimit, `m` with size `total`, says about entry `keep` and the end. */
    ghost predicate LimitVerdict(m: Entries, total: nat, keep: string, r: Limit)
      reads this
    {
      && (Spared(m, total, maxCache, keep) ==> keep in entries && r != GaveUp(RanOff))
      && (r == Within && keep in entries && Idle(entries[keep]) ==> Sparable(m, total, maxCache, keep))
      && (r == GaveUp(RanOff) ==> SomeDoomed(m, total, maxCache))
      && (OwnTime(m, keep) && Doomed(m, total, maxCache, keep) ==> r != Within && r != GaveUp(AllBusy))
    }

    /** What the loop of CheckLimit keeps: the conditions on the state before still mean the same. */
    ghost predicate Foreseen(e0: Entries, t0: nat, keep: string)
      reads this
    {
      ForeseenAt(e0, t0, keep, entries, totalSize)
    }

    ghost predicate ForeseenAt(e0: Entries, t0: nat, keep: string, m: Entries, total: nat) {
      && (Spared(e0, t0, maxCache, keep) ==> Spared(m, total, maxCache, keep))
      && (keep in m && Idle(m[keep]) ==>
            (Sparable(m, total, maxCache, keep) <==> Sparable(e0, t0, maxCache, keep)))
      && (OwnTime(e0, keep) && Doomed(e0, t0, maxCache, keep) ==>
            OwnTime(m, keep) && Doomed(m, total, maxCache, keep))
      && t0 - Total(e0, IdleSize()) == total - Total(m, IdleSize())
    }

    lemma ForeseenStep(e0: Entries, t0: nat, keep: string, m: Entries, total: nat, v: string)
      requires ForeseenAt(e0, t0, keep, m, total) && total > maxCache
      requires Loses(m, total, entries, totalSize, v) && !(exists j :: LastKey(m, j) && OnlyIdle(m, j))
      ensures Foreseen(e0, t0, keep)
    {
      hide Spared, Sparable, Doomed, OwnTime, OnlyIdle, LastKey;
      if Spared(m, total, maxCache, keep) {
        SparedStep(m, total, entries, totalSize, maxCache, keep, v);
      }
      if keep in entries && Idle(m[keep]) {
        SparableStep(m, total, entries, totalSize, maxCache, keep, v);
      }
      if OwnTime(m, keep) && Doomed(m, total, maxCache, keep) {
        DoomedStep(m, total, entries, totalSize, maxCache, keep, v);
      }
      BusyTotalStep(m, total, entries, totalSize, v);
    }

    lemma GivenUp(e0: Entries, u0: Sharing, t0: nat, keep: string, why: Eviction)
      requires Foreseen(e0, t0, keep) && Fewer(e0, u0, entries, users) && LeastRecent(e0, entries)
      requires WhyGivenUp(GaveUp(why))
      ensures LimitVerdict(e0, t0, keep, GaveUp(why))
    {
      if why == RanOff {
        var k :| LastKey(entries, k) && OnlyIdle(entries, k);
        DoomedFromStart(e0, t0, entries, totalSize, maxCache, k);
        if Spared(entries, totalSize, maxCache, keep) {
          SparedNotLast(entries, totalSize, maxCache, keep, k);
        }
      }
    }

    lemma InTheEnd(e0: Entries, t0: nat, keep: string)
      requires Foreseen(e0, t0, keep) && totalSize <= maxCache
      ensures LimitVerdict(e0, t0, keep, Within)
    {
      if keep in entries && Idle(entries[keep]) {
        SparedInEnd(entries, totalSize, maxCache, keep);
      }
      if OwnTime(e0, keep) && Doomed(e0, t0, maxCache, keep) {
        DoomedExceeds(entries, totalSize, maxCache, keep);
      }
    }

    /** One round of CheckLimit's loop; `v` is the entry that is gone. */
    method EvictOne() returns (r: Eviction, ghost v: string)
      requires Valid() && totalSize > maxCache
      modifies this
      ensures Valid() && Fewer(old(entries), old(users), entries, users) && LeastRecent(old(entries), entries)
      ensures r == Evicted || r == FileKept <==> entries != old(entries)
      ensures entries != old(entries) ==> |entries| < |old(entries)|
      ensures entries != old(entries) ==> Loses(old(entries), old(totalSize), entries, totalSize, v)
      ensures entries == old(entries) ==> totalSize == old(totalSize)
      ensures r == AllBusy <==> forall id :: id in old(entries) ==> !Idle(old(entries)[id])
      ensures r == RanOff <==> exists k :: LastKey(old(entries), k) && OnlyIdle(old(entries), k)
      ensures r == OldestBusy ==> exists b :: Oldest(entries, b) && BusyBehind(entries, b)
      ensures (exists b :: InTheWay(old(entries), b)) ==> r == OldestBusy
      ensures r == FileKept ==> spoiled
    {
      FewerOrSame(entries, users, "");
      assert LeastRecent(entries, entries);
      hide *;
      var keys := Order(entries);
      var victim := FindVictim(keys, entries);
      v := "";
      match victim
      case NoneIdle => return AllBusy, v;
      case PastEnd => return RanOff, v;
      case Chosen(id) =>
        v := id;
        InMap(entries, id);
        r := Evict(id);
    }

    /** The end of the round: the entry that was chosen is deleted, if it can be. */
    method Evict(id: string) returns (r: Eviction)
      requires Valid() && Oldest(entries, id)
      modifies this
      ensures Valid() && Fewer(old(entries), old(users), entries, users) && LeastRecent(old(entries), entries)
      ensures r == if !Idle(old(entries)[id]) then OldestBusy else if r == FileKept then FileKept else Evicted
      ensures if r == OldestBusy then entries == old(entries) && totalSize == old(totalSize)
              else
                && entries != old(entries) && |entries| < |old(entries)|
                && Loses(old(entries), old(totalSize), entries, totalSize, id)
      ensures r == FileKept ==> spoiled
    {
      hide *;
      InMap(entries, id);
      FewerOrSame(entries, users, "");
      OldestGone(entries, totalSize, id);
      var idle := Idle(entries[id]);
      var deleted := DeleteResource(id);
      r := if !idle then OldestBusy else if deleted then Evicted else FileKept;
    }

    /** LockResource: creates the entry if need be; refused while locked or being read.  It keeps the
        entry's address while it evicts: `Undefined` is the case that this very entry is evicted, or
        that the scan leaves the map.  An idle entry is safe if evicting the older idle ones is
        enough, and it is locked only if evicting those that are not newer is enough; with a time
        stamp of its own the two are one.  An entry that is being unlocked is safe unless some idle
        entry is doomed, and not locked if one is. */
    method LockResource(id: string, now: int) returns (r: LockResult)
      requires Valid()
      modifies this
      ensures Valid() && OpenKept(old(entries), old(users), entries, users)
      ensures r != Granted ==>
                Fewer(old(entries)[id := EntryOf(old(entries), id, now)], old(users)[id := UsersOf(old(users), id)],
                      entries, users)
      ensures if EntryOf(old(entries), id, now).lockState == Locked || UsersOf(old(users), id).readers > 0
              then r == Refused else old(totalSize) <= maxCache ==> r == Granted
      ensures LockEffect(old(entries)[id := EntryOf(old(entries), id, now)], id, old(totalSize), r)
      ensures LockVerdict(old(entries)[id := EntryOf(old(entries), id, now)], id, old(totalSize), r)
    {
      hide Measured, Accounted, Consistent, Fewer;
      if id !in entries {
        CreateEntry(id, now);
      } else {
        assert entries == entries[id := entries[id]] && users == users[id := users[id]];
      }
      EntryConsistent(id);
      LockableIff(entries[id], users[id]);
      r := LockEntry(id);
    }

    /** What the call does, `m` being the entries (with the new one) and `total` their size before. */
    ghost predicate LockEffect(m: Entries, id: string, total: nat, r: LockResult)
      requires id in m && entries.Keys == users.Keys
      reads this
    {
      && (r == Granted ==>
            id in entries && entries[id] == m[id].(lockState := Locked) && users[id].readers == 0 && Lockable(m[id]))
      && (id in entries && r != Granted ==> entries[id] == m[id])
      && (r == Undefined ==> Lockable(m[id])) && (!Lockable(m[id]) ==> r == Refused)
      && (total <= maxCache ==> (r == Granted <==> Lockable(m[id])) && r != Undefined && id in entries)
    }

    /** When it goes wrong. */
    ghost predicate LockVerdict(m: Entries, id: string, total: nat, r: LockResult)
      requires id in m
      reads this
    {
      && (Spared(m, total, maxCache, id) ==> r != Undefined && id in entries)
      && (Idle(m[id]) && r == Granted ==> Sparable(m, total, maxCache, id))
      && (Idle(m[id]) && OwnTime(m, id) && r != Refused ==> (r == Granted <==> Spared(m, total, maxCache, id)))
      && (!Idle(m[id]) && r == Undefined ==> SomeDoomed(m, total, maxCache))
      && (!Idle(m[id]) && SurelyDoomed(m, total, maxCache) ==> r != Granted)
      && (r == Refused && Lockable(m[id]) ==>
            WhyGivenUp(GaveUp(AllBusy)) || WhyGivenUp(GaveUp(OldestBusy)) || WhyGivenUp(GaveUp(FileKept)))
    }

    method LockEntry(id: string) returns (r: LockResult)
      requires Valid() && id in entries
      modifies this
      ensures Valid() && OpenKept(old(entries), old(users), entries, users)
      ensures r != Granted ==> Fewer(old(entries), old(users), entries, users)
      ensures LockEffect(old(entries), id, old(totalSize), r) && LockVerdict(old(entries), id, old(totalSize), r)
    {
      hide Measured, Accounted, Consistent, AllConsistent, Fewer, Spared, Sparable, SomeDoomed, SurelyDoomed, OwnTime,
           WhyGivenUp;
      EntryConsistent(id);
      FewerOrSame(entries, users, id);
      ghost var m, total := entries, totalSize;
      WithinLimit(m, total, maxCache, id);
      if !Lockable(entries[id]) {
        return Refused;
      }
      if totalSize > maxCache {
        r := MakeRoom(id);
        if r != Granted {
          return;
        }
      }
      EntryConsistent(id);
      LockConsistent(m[id], users[id]);
      Relock(id, Locked, entries[id].lastModified);
      return Granted;
    }

    /** CheckLimit as LockResource calls it, and what LockResource makes of the answer: `Granted` if it
        goes on to lock the entry. */
    method MakeRoom(id: string) returns (r: LockResult)
      requires Valid() && id in entries && Lockable(entries[id])
      modifies this
      ensures Valid() && OpenKept(old(entries), old(users), entries, users)
      ensures r == Granted ==> id in entries
      ensures Fewer(old(entries), old(users), entries, users)
      ensures id in entries ==> entries[id] == old(entries)[id] && users[id] == old(users)[id]
      ensures LockVerdict(old(entries), id, old(totalSize), r)
    {
      hide Measured, Accounted, Consistent, AllConsistent, Fewer, LeastRecent, LockVerdict, LimitVerdict, WhyGivenUp;
      EntryConsistent(id);
      ghost var m, total := entries, totalSize;
      ghost var keep := Watched(m, total, maxCache, id);
      var limit := CheckLimit(keep);
      StillKeyed();
      FewerKeepsOpen(old(entries), old(users), entries, users);
      FewerAt(old(entries), old(users), entries, users, id);
      r := if limit == GaveUp(RanOff) then Undefined
           else if limit != Within then Refused
           else if id !in entries then Undefined else Granted;
      VerdictOf(m, total, id, keep, limit, r);
    }

    lemma VerdictOf(m: Entries, total: nat, id: string, keep: string, limit: Limit, r: LockResult)
      requires id in m && (id in entries ==> entries[id] == m[id])
      requires keep == Watched(m, total, maxCache, id)
      requires LimitVerdict(m, total, keep, limit) && WhyGivenUp(limit)
      requires r == if limit == GaveUp(RanOff) then Undefined
                    else if limit != Within then Refused
                    else if id !in entries then Undefined else Granted
      requires id !in entries ==> Idle(m[id])
      ensures LockVerdict(m, id, total, r)
    {
      hide Spared, Sparable, SomeDoomed, SurelyDoomed, OwnTime;
      WithinLimit(m, total, maxCache, id);
      WatchedDoomed(m, total, maxCache, id);
    }

    method CreateEntry(id: string, now: int)
      requires Valid() && id !in entries
      modifies this
      ensures Valid() && entries == old(entries)[id := Entry(Unlocked, 0, 0, 0, now)]
      ensures totalSize == old(totalSize)
      ensures users == old(users)[id := NO_USERS]
    {
      SetEntry(id, Entry(Unlocked, 0, 0, 0, now), NO_USERS);
    }

    /** Replaces an entry without touching its files. */
    method Adjust(id: string, f: Entry, ghost u: Users)
      requires Valid() && id in entries && Consistent(f, u)
      requires f.size == entries[id].size && f.streams == entries[id].streams && u.writing == users[id].writing
      modifies this`entries, this`users, this`totalSize, this`totalAccessors
      ensures Valid() && entries == old(entries)[id := f] && users == old(users)[id := u]
      ensures totalSize == old(totalSize)
    {
      hide Measured, Accounted, Consistent;
      if !spoiled {
        MeasureSame(entries, users, files, id, f, u);
      }
      SetEntry(id, f, u);
    }

    /** Changes only the lock state (and the time stamp) of one entry. */
    method Relock(id: string, lock: LockState, when: int)
      requires Valid() && id in entries
      requires Consistent(entries[id].(lockState := lock, lastModified := when), users[id])
      modifies this`entries, this`users, this`totalSize, this`totalAccessors
      ensures Valid() && users == old(users) && totalSize == old(totalSize)
      ensures entries == old(entries)[id := old(entries)[id].(lockState := lock, lastModified := when)]
    {
      hide Measured, Accounted, Consistent, AllConsistent;
      KeysOf(entries, users);
      Adjust(id, entries[id].(lockState := lock, lastModified := when), users[id]);
      assert users == old(users);
    }

    /** UnlockResource: takes effect at once when nothing is open, later otherwise. */
    method UnlockResource(id: string, now: int) returns (ok: bool, ranOff: bool)
      requires Valid() && id in entries
      modifies this
      ensures Valid()
      ensures ok <==> old(entries)[id].lockState == Locked
      ensures ok && old(users)[id].writing == multiset{} ==> Settled()
      ensures ok && id in entries ==>
                var done := old(users)[id].writing == multiset{};
                entries[id] == old(entries)[id].(lockState := if done then Unlocked else Unlocking,
                                                 lastModified := if done then now else old(entries)[id].lastModified)
      ensures ranOff ==> SomeDoomed(old(entries)[id := UnlockedEntry(old(entries)[id], now)], old(totalSize), maxCache)
      ensures Fewer(old(entries)[id := if ok then UnlockedEntry(old(entries)[id], now) else old(entries)[id]],
                    old(users), entries, users)
    {
      hide Measured, Accounted, Fewer, SomeDoomed, Settled;
      ghost var before := entries;
      var e := entries[id];
      WritersOnly(e, users[id]);
      FewerOrSame(entries[id := e], users, id);
      FewerOrSame(entries[id := UnlockedEntry(e, now)], users, id);
      if e.lockState != Locked {
        assert entries == entries[id := e];
        return false, false;
      }
      var f := UnlockedEntry(e, now);
      Relock(id, f.lockState, f.lastModified);
      ok, ranOff := true, false;
      if f.lockState == Unlocked {
        ranOff := Trim();
        FewerAt(before[id := f], old(users), entries, users, id);
      }
    }

    /** WriteResource.  `clamped` is the case that the source asserts cannot happen: it takes an
        earlier failure to delete a file, or a second writer of one stream. */
    method WriteResource(id: string, index: nat) returns (granted: bool, clamped: bool, failed: bool)
      requires Valid() && id in entries
      modifies this
      ensures Valid() && (spoiled <==> old(spoiled) || (granted && index in old(users)[id].writing))
      ensures granted <==> old(entries)[id].lockState == Locked && !failed
      ensures granted ==> id in entries
      ensures granted ==>
                entries[id].streams >= index + 1 && entries[id].streams >= old(entries)[id].streams &&
                (entries[id].streams == index + 1 || entries[id].streams == old(entries)[id].streams) &&
                entries[id].lockState == Locked && entries[id].lastModified == old(entries)[id].lastModified
      ensures granted ==>
                entries == old(entries)[id := OpenedEntry(old(entries)[id], index, old(FileSize(files, id, index)))]
      ensures granted ==> users == old(users)[id := Users(old(users)[id].writing + multiset{index}, 0)]
      ensures granted ==> files == old(files)[(id, index) := 0]
      ensures !granted ==> entries == old(entries) && users == old(users) && files == old(files)
      ensures clamped ==> old(spoiled) || index in old(users)[id].writing
    {
      hide Measured, Accounted, Stored, Consistent;
      clamped := false;
      if entries[id].lockState != Locked {
        return false, clamped, false;
      }
      if !spoiled && index !in users[id].writing {
        PreviousFits(entries, users, files, id, index);
      }
      clamped := FileSize(files, id, index) > entries[id].size;
      failed := *;
      if failed {
        return false, clamped, failed;
      }
      OpenForWriting(id, index);
      return true, clamped, failed;
    }

    method OpenForWriting(id: string, index: nat)
      requires Valid() && id in entries && entries[id].lockState == Locked
      modifies this
      ensures Valid() && (spoiled <==> old(spoiled) || index in old(users)[id].writing)
      ensures entries == old(entries)[id := OpenedEntry(old(entries)[id], index, old(FileSize(files, id, index)))]
      ensures users == old(users)[id := Users(old(users)[id].writing + multiset{index}, 0)]
      ensures files == old(files)[(id, index) := 0]
    {
      hide Measured, Accounted, Stored, Consistent;
      var f := OpenedEntry(entries[id], index, FileSize(files, id, index));
      ghost var v := Users(users[id].writing + multiset{index}, 0);
      WriterOpens(entries[id], users[id], index, f.streams, f.size);
      spoiled := spoiled || index in users[id].writing;
      if !spoiled {
        PreviousFits(entries, users, files, id, index);
        MeasureOpen(entries, users, files, id, index, f);
      }
      SetEntry(id, f, v);
      files := files[(id, index) := 0];
    }

    /** The owner of an open stream writes to its file. */
    method Written(id: string, index: nat, size: nat)
      requires Valid() && id in entries && index in users[id].writing
      modifies this`files
      ensures Valid() && files == old(files)[(id, index) := size]
    {
      if !spoiled {
        MeasureWritten(entries, users, files, id, index, size);
      }
      files := files[(id, index) := size];
    }

    /** ReadResource: only unlocked resources are read. */
    method ReadResource(id: string, index: nat) returns (granted: bool, failed: bool)
      requires Valid() && id in entries
      modifies this
      ensures Valid()
      ensures granted <==> old(entries)[id].lockState == Unlocked && index < old(entries)[id].streams && !failed
      ensures granted ==> entries == old(entries)[id := old(entries)[id].(accessors := old(entries)[id].accessors + 1)]
      ensures granted ==> users == old(users)[id := Users(multiset{}, old(users)[id].readers + 1)]
      ensures !granted ==> entries == old(entries) && users == old(users)
    {
      var e := entries[id];
      if e.lockState != Unlocked || index >= e.streams {
        return false, false;
      }
      failed := *;
      if failed {
        return false, failed;
      }
      ReaderOpens(e, users[id]);
      hide Measured, Accounted, Consistent, AllConsistent;
      Adjust(id, e.(accessors := e.accessors + 1), Users(multiset{}, users[id].readers + 1));
      return true, failed;
    }

    /** ReleaseResource, when an open stream is destroyed.  Its entry is always still there, and
        nothing else is lost than what the limit then evicts. */
    method ReleaseResource(id: string, index: nat, now: int, ghost writer: bool) returns (ranOff: bool)
      requires Valid() && id in users
      requires if writer then index in users[id].writing else users[id].readers > 0
      modifies this
      ensures Valid()
      ensures id in old(entries)
      ensures ranOff ==> writer
      ensures ranOff ==>
                SomeDoomed(old(entries)[id := ClosedEntry(old(entries)[id], old(FileSize(files, id, index)), now)],
                           old(totalSize) + old(FileSize(files, id, index)), maxCache)
      ensures writer && old(entries)[id].lockState == Unlocking && |old(users)[id].writing| == 1 ==> Settled()
      ensures writer && id in entries ==>
                var e := old(entries)[id];
                var done := e.lockState == Unlocking && |old(users)[id].writing| == 1;
                entries[id] == Entry(if done then Unlocked else e.lockState, e.accessors - 1,
                                     e.size + old(FileSize(files, id, index)), e.streams,
                                     if done then now else e.lastModified)
      ensures writer ==>
                Fewer(old(entries)[id := ClosedEntry(old(entries)[id], old(FileSize(files, id, index)), now)],
                      old(users)[id := Users(old(users)[id].writing - multiset{index}, 0)], entries, users)
      ensures !writer ==>
                entries == old(entries)[id := old(entries)[id].(accessors := old(entries)[id].accessors - 1)] &&
                users == old(users)[id := Users(multiset{}, old(users)[id].readers - 1)]
    {
      hide Measured, Accounted, Fewer, Consistent, AllConsistent, SomeDoomed, Settled;
      EntryConsistent(id);
      var e := entries[id];
      ghost var u := users[id];
      WhoIsOpen(e, u, index, writer);
      if e.lockState == Unlocked {
        Adjust(id, e.(accessors := e.accessors - 1), Users(multiset{}, u.readers - 1));
        return false;
      }
      WritersOnly(e, u);
      CloseWriter(id, index, now);
      ghost var closed, were := entries, users;
      FewerOrSame(entries, users, id);
      ranOff := false;
      if e.lockState == Unlocking && entries[id].accessors == 0 {
        ranOff := Trim();
        FewerAt(closed, were, entries, users, id);
      }
    }

    method CloseWriter(id: string, index: nat, now: int)
      requires Valid() && id in entries && id in users && index in users[id].writing
      requires entries[id].lockState != Unlocked && entries[id].accessors > 0
      modifies this`entries, this`users, this`totalSize, this`totalAccessors
      ensures Valid()
      ensures entries == old(entries)[id := ClosedEntry(old(entries)[id], FileSize(files, id, index), now)]
      ensures users == old(users)[id := Users(old(users)[id].writing - multiset{index}, 0)]
      ensures totalSize == old(totalSize) + FileSize(files, id, index)
    {
      var f := ClosedEntry(entries[id], FileSize(files, id, index), now);
      WriterCloses(entries[id], users[id], index, f);
      hide Measured, Accounted, Consistent;
      if !spoiled {
        MeasureClose(entries, users, files, id, index, f);
      }
      SetEntry(id, f, Users(users[id].writing - multiset{index}, 0));
    }

    /** Purge forgets the entries but not their sizes: the account is right afterwards if and only
        if it stood at zero before. */
    method Purge() returns (ok: bool, failed: bool)
      requires Valid()
      modifies this
      ensures ok <==> old(totalAccessors) == 0 && !failed
      ensures ok ==> entries == map[] && totalSize == old(totalSize)
      ensures ok ==> (Accounted(entries, totalSize, totalAccessors) <==> old(totalSize) == 0)
      ensures !ok ==> entries == old(entries) && totalSize == old(totalSize)
    {
      if totalAccessors > 0 {
        return false, false;
      }
      failed := *;
      if failed {
        return false, failed;
      }
      entries, files := map[], map[];
      users := map[];
      return true, failed;
    }
  }

  method LeastKey(keys: set<string>) returns (least: string)
    requires keys != {}
    ensures least in keys && forall k :: k in keys && k != least ==> Below(least, k)
  {
    hide Below;
    least :| least in keys;
    var rest := keys - {least};
    while rest != {}
      invariant rest <= keys && least in keys && least !in rest
      invariant forall k :: k in keys && k != least && k !in rest ==> Below(least, k)
      decreases |rest|
    {
      var k :| k in rest;
      BelowTotal(k, least);
      if Below(k, least) {
        forall j | j in keys && j != least && j !in rest
          ensures Below(k, j)
        {
          BelowTransitive(k, least, j);
        }
        least := k;
      }
      rest := rest - {k};
    }
  }

  /** The keys in order. */
  method Order(m: Entries) returns (keys: seq<string>)
    ensures Enumerates(keys, m)
  {
    hide Below;
    keys := [];
    var rest := m.Keys;
    while rest != {}
      invariant rest <= m.Keys
      invariant forall i :: 0 <= i < |keys| ==> keys[i] in m && keys[i] !in rest
      invariant forall id :: id in m ==> id in rest || id in keys
      invariant forall i, id :: 0 <= i < |keys| && id in rest ==> Below(keys[i], id)
      invariant forall i, j :: 0 <= i < j < |keys| ==> Below(keys[i], keys[j])
      decreases |rest|
    {
      var id := LeastKey(rest);
      keys := keys + [id];
      rest := rest - {id};
    }
  }

  lemma InMap(m: Entries, id: string)
    requires Oldest(m, id)
    ensures id in m
  {
  }

  lemma OldestGone(m: Entries, total: nat, id: string)
    requires Oldest(m, id)
    ensures LeastRecent(m, m - {id}) && LeastRecent(m, m) && |m - {id}| < |m| && m - {id} != m
    ensures Idle(m[id]) && total >= m[id].size ==> Loses(m, total, m - {id}, total - m[id].size, id)
  {
    OneFewer(m, id);
  }

  lemma OneFewer(m: Entries, k: string)
    requires k in m
    ensures |m - {k}| < |m|
  {
    assert (m - {k}).Keys == m.Keys - {k};
    assert |m.Keys - {k}| < |m.Keys|;
  }

  // ---------- The account of files, step by step ----------

  /** The assert in WriteResource: the file about to be replaced is part of the entry's size. */
  lemma PreviousFits(entries: Entries, users: Sharing, files: Files, id: string, index: nat)
    requires Measured(entries, users, files) && id in entries && index !in users[id].writing
    ensures FileSize(files, id, index) <= entries[id].size
  {
    if index < entries[id].streams {
      StoredSplit(files, id, entries[id].streams, users[id].writing, index);
    }
  }

  lemma MeasureOpen(entries: Entries, users: Sharing, files: Files, id: string, index: nat, f: Entry)
    requires Measured(entries, users, files) && id in entries && index !in users[id].writing
    requires f.streams == if entries[id].streams > index + 1 then entries[id].streams else index + 1
    requires FileSize(files, id, index) <= entries[id].size
    requires f.size == entries[id].size - FileSize(files, id, index)
    ensures Measured(entries[id := f], users[id := Users(users[id].writing + multiset{index}, 0)],
                     files[(id, index) := 0])
  {
    var e, w := entries[id], users[id].writing;
    var more := files[(id, index) := 0];
    StoredGrow(files, id, e.streams, f.streams, w);
    StoredSplit(files, id, f.streams, w, index);
    StoredSame(files, more, id, f.streams, w + multiset{index}, w + multiset{index});
    OthersSame(entries, users, files, more, id);
  }

  lemma MeasureSame(entries: Entries, users: Sharing, files: Files, id: string, f: Entry, v: Users)
    requires Measured(entries, users, files) && id in entries
    requires f.size == entries[id].size && f.streams == entries[id].streams && v.writing == users[id].writing
    ensures Measured(entries[id := f], users[id := v], files)
  {
    hide Stored;
  }

  lemma MeasureErase(entries: Entries, users: Sharing, files: Files, fewer: Files, id: string)
    requires Measured(entries, users, files) && id in entries
    requires forall k :: k in fewer ==> k in files && fewer[k] == files[k]
    requires forall k :: k in files && k.0 != id ==> k in fewer
    requires forall i :: 0 <= i < entries[id].streams ==> (id, i) !in fewer
    ensures Measured(entries - {id}, users - {id}, fewer)
  {
    OthersSame(entries, users, files, fewer, id);
    hide Stored;
    forall k | k in fewer
      ensures k.0 != id
    {
      assert k == (k.0, k.1);
    }
  }

  lemma MeasureClose(entries: Entries, users: Sharing, files: Files, id: string, index: nat, f: Entry)
    requires Measured(entries, users, files) && id in entries && index in users[id].writing
    requires index < entries[id].streams == f.streams
    requires f.size == entries[id].size + FileSize(files, id, index)
    ensures Measured(entries[id := f], users[id := Users(users[id].writing - multiset{index}, 0)], files)
  {
    var w := users[id].writing;
    StoredSplit(files, id, f.streams, w - multiset{index}, index);
    assert w - multiset{index} + multiset{index} == w;
  }

  lemma MeasureWritten(entries: Entries, users: Sharing, files: Files, id: string, index: nat, size: nat)
    requires Measured(entries, users, files) && id in entries && index in users[id].writing
    requires index < entries[id].streams
    ensures Measured(entries, users, files[(id, index) := size])
  {
    var more := files[(id, index) := size];
    StoredSame(files, more, id, entries[id].streams, users[id].writing, users[id].writing);
    OthersSame(entries, users, files, more, id);
  }

  lemma OthersSame(entries: Entries, users: Sharing, f: Files, g: Files, id: string)
    requires entries.Keys == users.Keys
    requires forall k: (string, nat) :: k.0 != id ==> (k in f <==> k in g) && (k in f ==> f[k] == g[k])
    ensures forall j :: j in entries && j != id ==>
              Stored(f, j, entries[j].streams, users[j].writing) == Stored(g, j, entries[j].streams, users[j].writing)
  {
    forall j | j in entries && j != id
      ensures Stored(f, j, entries[j].streams, users[j].writing) == Stored(g, j, entries[j].streams, users[j].writing)
    {
      StoredSame(f, g, j, entries[j].streams, users[j].writing, users[j].writing);
    }
  }

  /** In every reachable state no resource is read and written at the same time. */
  lemma NeverReadAndWritten(c: DiskCache, id: string)
    requires c.Valid() && id in c.entries
    ensures c.users[id].readers == 0 || c.users[id].writing == multiset{}
    ensures c.entries[id].lockState == Unlocking ==> c.users[id].writing != multiset{}
  {
  }

  /** Two idle entries: `a` with 10 bytes, and `b`, newer, with one. */
  function Two(a: string, b: string): Entries {
    map[a := Entry(Unlocked, 0, 10, 1, 1), b := Entry(Unlocked, 0, 1, 1, 2)]
  }

  lemma TwoAccounted(a: string, b: string)
    requires a != b
    ensures var m := Two(a, b);
            Accounted(m, 11, 0) && !Spared(m, 11, 5, a) && OwnTime(m, a) && Idle(m[a])
  {
    var m := Two(a, b);
    var rest := m - {a};
    TotalRemove(m, SizeOf, a);
    TotalRemove(rest, SizeOf, b);
    TotalRemove(m, AccessorsOf, a);
    TotalRemove(rest, AccessorsOf, b);
    assert rest - {b} == map[];
    TotalZero(m, OlderThan(1));
  }

  lemma TwoMeasured(a: string, b: string, files: Files)
    requires a != b && files == map[(a, 0) := 10, (b, 0) := 1]
    ensures Measured(Two(a, b), map[a := NO_USERS, b := NO_USERS], files)
    ensures AllConsistent(Two(a, b), map[a := NO_USERS, b := NO_USERS])
  {
    OneStream(files, a);
    OneStream(files, b);
    hide Stored;
  }

  lemma OneStream(files: Files, id: string)
    ensures Stored(files, id, 1, multiset{}) == FileSize(files, id, 0)
  {
    assert Stored(files, id, 0, multiset{}) == 0;
  }

  /** With a limit of five bytes, locking `a` evicts `a`: unless a file cannot be deleted, the call
      goes on with an entry that is no longer there. */
  method LockedEntryLost(a: string, b: string) returns (c: DiskCache, r: LockResult)
    requires a != b
    ensures fresh(c) && c.Valid()
    ensures r == Undefined || (r == Refused && c.spoiled)
  {
    hide Measured, Accounted, AllConsistent, Spared, OwnTime, Fewer, Two;
    c := new DiskCache(5);
    c.entries, c.totalSize, c.totalAccessors := Two(a, b), 11, 0;
    c.files, c.users := map[(a, 0) := 10, (b, 0) := 1], map[a := NO_USERS, b := NO_USERS];
    TwoAccounted(a, b);
    TwoMeasured(a, b, c.files);
    ghost var u := c.users;
    assert EntryOf(c.entries, a, 3) == c.entries[a] && c.entries[a := c.entries[a]] == c.entries;
    r := c.LockResource(a, 3);
    if r == Refused {
      NoneBusy(a, b, c.entries, c.users, u[a := UsersOf(u, a)], c.totalSize, c.totalAccessors);
    }
  }

  lemma NoneBusy(a: string, b: string, m: Entries, users: Sharing, u: Sharing,
                 total: nat, accessors: nat)
    requires a != b && Fewer(Two(a, b), u, m, users) && Accounted(m, total, accessors)
    ensures forall id :: id in m ==> Idle(m[id])
    ensures (forall id :: id in m ==> !Idle(m[id])) ==> total == 0
  {
    if forall id :: id in m ==> !Idle(m[id]) {
      assert m == map[];
    }
  }
}
