/**
 * The driver's blocklist: a sorted singly linked list on the heap, guarded by a
 * non-reentrant lock, with a 32-bit entry count. `Blocked()` is the set of keys it stands for.
 */
module Blocklists {
  import opened Paths

  const COUNT_RANGE := 0x1_0000_0000

  type Path = seq<WChar>

  class Entry {
    var path: Path   // the whole inline buffer, whatever follows the NUL included
    var next: Entry?

    constructor (next: Entry?, path: Path)
      ensures this.next == next && this.path == path
    {
      this.next, this.path := next, path;
    }
  }

  /** The caller-provided lock: taking it twice or releasing it unheld is ruled out at every call. */
  class SpinLock {
    var held: bool

    constructor ()
      ensures !held
    {
      held := false;
    }

    method Acquire()
      requires !held
      modifies this
      ensures held
    {
      held := true;
    }

    method Release()
      requires held
      modifies this
      ensures !held
    {
      held := false;
    }
  }

  // ---------- Chains of entries, as values ----------

  /** The entry at a position, null past the end. */
  ghost function At(spine: seq<Entry>, k: nat): Entry? {
    if k < |spine| then spine[k] else null
  }

  ghost function Before(spine: seq<Entry>, k: nat): Entry?
    requires k <= |spine|
  {
    if k > 0 then spine[k - 1] else null
  }

  /** Every entry of a chain is allocated. */
  ghost predicate Covers(live: set<Entry>, spine: seq<Entry>) {
    forall i {:trigger spine[i]} :: 0 <= i < |spine| ==> spine[i] in live
  }

  /** From `head`, the links visit exactly `spine`, each entry once, and then end. */
  ghost predicate Chain(head: Entry?, spine: seq<Entry>, links: map<Entry, Entry?>) {
    && head == At(spine, 0)
    && (forall i {:trigger links[spine[i]]} {:trigger spine[i] in links} :: 0 <= i < |spine| ==> spine[i] in links && links[spine[i]] == At(spine, i + 1))
  }

  ghost predicate Distinct(spine: seq<Entry>) {
    forall i, j :: 0 <= i < j < |spine| ==> spine[i] != spine[j]
  }

  /** Entries with different keys are different entries. */
  lemma KeysSeparate(spine: seq<Entry>, keys: seq<Path>, paths: map<Entry, Path>)
    requires Holding(spine, keys, paths) && Ascending(keys)
    ensures Distinct(spine)
  {
    forall i, j | 0 <= i < j < |spine|
      ensures spine[i] != spine[j]
    {
      assert Less(keys[i], keys[j]);
      assert Holds(paths[spine[i]], keys[i]) && Holds(paths[spine[j]], keys[j]);
      LessIrreflexive(keys[i]);
    }
  }

  ghost function InsertAt<T>(s: seq<T>, k: nat, x: T): (r: seq<T>)
    requires k <= |s|
    ensures |r| == |s| + 1
    ensures forall i :: 0 <= i < |r| ==> r[i] == if i < k then s[i] else if i == k then x else s[i - 1]
  {
    s[..k] + [x] + s[k..]
  }

  ghost function RemoveAt<T>(s: seq<T>, k: nat): (r: seq<T>)
    requires k < |s|
    ensures |r| == |s| - 1
    ensures forall i :: 0 <= i < |r| ==> r[i] == if i < k then s[i] else s[i + 1]
  {
    s[..k] + s[k + 1..]
  }

  /** Rewriting one link puts a new entry into the chain. */
  lemma ChainInsert(head: Entry?, spine: seq<Entry>, links: map<Entry, Entry?>, k: nat, entry: Entry)
    requires Chain(head, spine, links) && Distinct(spine) && k <= |spine| && (forall i :: 0 <= i < |spine| ==> spine[i] != entry)
    ensures var prev := Before(spine, k);
            var linked := if prev == null then links else links[prev := entry];
            Chain(if prev == null then entry else head, InsertAt(spine, k, entry), linked[entry := At(spine, k)])
  {
  }

  /** Rewriting one link takes an entry out of the chain. */
  lemma ChainRemove(head: Entry?, spine: seq<Entry>, links: map<Entry, Entry?>, k: nat)
    requires Chain(head, spine, links) && Distinct(spine) && k < |spine|
    ensures spine[k] in links
    ensures var prev := Before(spine, k);
            var next := links[spine[k]];
            if prev == null then Chain(next, RemoveAt(spine, k), links)
            else Chain(head, RemoveAt(spine, k), links[prev := next])
  {
    assert links[spine[k]] == At(spine, k + 1);
  }

  /** Entry by entry, the buffers of a chain hold the given keys. */
  ghost predicate Holding(spine: seq<Entry>, keys: seq<Path>, paths: map<Entry, Path>) {
    && |keys| == |spine|
    && forall i {:trigger paths[spine[i]]} {:trigger spine[i] in paths} :: 0 <= i < |spine| ==> spine[i] in paths && Holds(paths[spine[i]], keys[i])
  }

  ghost predicate Holds(path: Path, key: Path) {
    |path| == MAX_PATH && InLimit(path) && Text(path) == key
  }

  lemma HoldingInsert(spine: seq<Entry>, keys: seq<Path>, paths: map<Entry, Path>, k: nat, entry: Entry, key: Path, path: Path)
    requires Holding(spine, keys, paths) && k <= |spine| && (forall i :: 0 <= i < |spine| ==> spine[i] != entry) && Holds(path, key)
    ensures Holding(InsertAt(spine, k, entry), InsertAt(keys, k, key), paths[entry := path])
  {
  }

  lemma HoldingRemove(spine: seq<Entry>, keys: seq<Path>, paths: map<Entry, Path>, k: nat)
    requires Holding(spine, keys, paths) && k < |spine|
    ensures Holding(RemoveAt(spine, k), RemoveAt(keys, k), paths)
  {
  }

  /** Entries off the chain do not matter to it. */
  lemma Restrict(head: Entry?, spine: seq<Entry>, keys: seq<Path>,
                 links: map<Entry, Entry?>, paths: map<Entry, Path>, links': map<Entry, Entry?>, paths': map<Entry, Path>)
    requires Chain(head, spine, links) && Holding(spine, keys, paths)
    requires forall i {:trigger spine[i]} :: 0 <= i < |spine| ==>
                 var e := spine[i];
                 && e in links' && e in links && links'[e] == links[e]
                 && e in paths' && e in paths && paths'[e] == paths[e]
    ensures Chain(head, spine, links') && Holding(spine, keys, paths')
  {
  }

  ghost function Elements(keys: seq<Path>): set<Path> {
    set k | k in keys
  }

  lemma ElementsInsert(keys: seq<Path>, k: nat, p: Path)
    requires k <= |keys| && Ascending(keys)
    requires forall i :: 0 <= i < k ==> Less(keys[i], p)
    requires k < |keys| ==> Less(p, keys[k])
    ensures Elements(InsertAt(keys, k, p)) == Elements(keys) + {p}
    ensures Ascending(InsertAt(keys, k, p))
  {
    assert keys == keys[..k] + keys[k..];
    AscendingInsert(keys, k, p);
  }

  lemma ElementsRemove(keys: seq<Path>, k: nat)
    requires k < |keys| && Ascending(keys)
    ensures Elements(RemoveAt(keys, k)) == Elements(keys) - {keys[k]}
    ensures Ascending(RemoveAt(keys, k))
  {
    assert keys == keys[..k] + [keys[k]] + keys[k + 1..];
    LessIrreflexive(keys[k]);
  }

  /** Ascending keys are distinct, so the list is as long as the set is large. */
  lemma {:induction false} DistinctCount(keys: seq<Path>)
    requires Ascending(keys)
    ensures |Elements(keys)| == |keys|
  {
    if keys != [] {
      var rest := keys[..|keys| - 1];
      DistinctCount(rest);
      var last := keys[|keys| - 1];
      LessIrreflexive(last);
      assert last !in rest;
      assert Elements(keys) == Elements(rest) + {last};
    }
  }

  /** Everything the list is, as a value. */
  ghost predicate Listing(head: Entry?, spine: seq<Entry>, keys: seq<Path>, live: set<Entry>,
                          links: map<Entry, Entry?>, paths: map<Entry, Path>) {
    && Covers(live, spine)
    && Chain(head, spine, links)
    && Holding(spine, keys, paths)
    && Ascending(keys)
  }

  lemma Inserted(head: Entry?, spine: seq<Entry>, keys: seq<Path>, live: set<Entry>,
                 links: map<Entry, Entry?>, paths: map<Entry, Path>, k: nat, entry: Entry, key: Path, path: Path)
    returns (spine': seq<Entry>, keys': seq<Path>)
    requires Listing(head, spine, keys, live, links, paths)
    requires k <= |spine| && entry !in live && Holds(path, key)
    requires forall i :: 0 <= i < k ==> Less(keys[i], key)
    requires k < |spine| ==> Less(key, keys[k])
    ensures |spine'| == |spine| + 1 && Elements(keys') == Elements(keys) + {key}
    ensures var prev := Before(spine, k);
            var linked := if prev == null then links else links[prev := entry];
            Listing(if prev == null then entry else head, spine', keys', live + {entry},
                    linked[entry := At(spine, k)], paths[entry := path])
  {
    spine', keys' := InsertAt(spine, k, entry), InsertAt(keys, k, key);
    KeysSeparate(spine, keys, paths);
    ChainInsert(head, spine, links, k, entry);
    HoldingInsert(spine, keys, paths, k, entry, key, path);
    ElementsInsert(keys, k, key);
  }

  lemma Removed(head: Entry?, spine: seq<Entry>, keys: seq<Path>, live: set<Entry>,
                links: map<Entry, Entry?>, paths: map<Entry, Path>, k: nat)
    returns (spine': seq<Entry>, keys': seq<Path>)
    requires Listing(head, spine, keys, live, links, paths) && k < |spine|
    ensures |spine'| == |spine| - 1 && Elements(keys') == Elements(keys) - {keys[k]}
    ensures spine[k] in live && spine[k] in links && spine[k] in paths
    ensures var prev := Before(spine, k);
            var next := links[spine[k]];
            var linked := if prev == null then links else links[prev := next];
            Listing(if prev == null then next else head, spine', keys', live - {spine[k]},
                    linked - {spine[k]}, paths - {spine[k]})
  {
    spine', keys' := RemoveAt(spine, k), RemoveAt(keys, k);
    KeysSeparate(spine, keys, paths);
    ChainRemove(head, spine, links, k);
    HoldingRemove(spine, keys, paths, k);
    ElementsRemove(keys, k);
    var prev, next := Before(spine, k), links[spine[k]];
    var linked := if prev == null then links else links[prev := next];
    Restrict(if prev == null then next else head, spine', keys', linked, paths, linked - {spine[k]}, paths - {spine[k]});
  }

  // ---------- The list ----------

  class Blocklist {
    var head: Entry?
    var count: nat
    const lock: SpinLock
    ghost var spine: seq<Entry>   // the entries from head to the end of the list
    ghost var keys: seq<Path>     // the key each of them holds
    ghost var live: set<Entry>    // entries allocated and not freed
    ghost var outstanding: nat    // how many those are

    ghost function Links(): map<Entry, Entry?>
      reads this`live, live`next
    {
      map e | e in live :: e.next
    }

    ghost function Paths(): map<Entry, Path>
      reads this`live, live`path
    {
      map e | e in live :: e.path
    }

    ghost predicate Linked()
      reads this`head, this`spine, this`keys, this`live, live
    {
      Listing(head, spine, keys, live, Links(), Paths())
    }

    ghost predicate Valid()
      reads this, live
    {
      && Linked()
      && count == |spine| % COUNT_RANGE
      && outstanding == |spine|
    }

    ghost function Blocked(): set<Path>
      reads this`keys
    {
      Elements(keys)
    }

    constructor ()
      ensures Valid() && !lock.held && fresh(lock) && spine == [] && Blocked() == {}
    {
      head, count := null, 0;
      lock := new SpinLock();
      spine, keys, live, outstanding := [], [], {}, 0;
    }

    /** The allocator hook and the copy into the new entry; null when memory runs out. */
    method Alloc(memory: bool, next: Entry?, path: Path) returns (e: Entry?)
      ensures memory <==> e != null
      ensures e != null ==> fresh(e) && e.next == next && e.path == path
    {
      if !memory {
        return null;
      }
      e := new Entry(next, path);
    }

    /** The new entry counts as allocated once it is linked in. */
    ghost method Adopt(e: Entry)
      requires e !in live
      modifies this`live, this`outstanding
      ensures live == old(live) + {e} && outstanding == old(outstanding) + 1
      ensures Links() == old(Links())[e := e.next] && Paths() == old(Paths())[e := e.path]
    {
      live, outstanding := live + {e}, outstanding + 1;
    }

    /** The free hook: nothing is freed twice, and nothing that was not allocated. */
    method Free(e: Entry)
      requires e in live
      requires outstanding > 0
      modifies this`live, this`outstanding
      ensures live == old(live) - {e} && outstanding == old(outstanding) - 1
      ensures Links() == old(Links()) - {e} && Paths() == old(Paths()) - {e}
    {
      live, outstanding := live - {e}, outstanding - 1;
    }

    /**
     * The sorted walk shared by add, remove and contains: stops at the entry holding the key,
     * or early at the first larger one. `k` is the position of `cur`.
     */
    method Locate(normalized: Path) returns (prev: Entry?, cur: Entry?, found: bool, ghost k: nat)
      requires Valid() && lock.held && |normalized| == MAX_PATH
      ensures k <= |spine| && cur == At(spine, k) && prev == Before(spine, k)
      ensures forall i :: 0 <= i < k ==> Less(keys[i], Text(normalized))
      ensures found <==> k < |spine| && keys[k] == Text(normalized)
      ensures !found && k < |spine| ==> Less(Text(normalized), keys[k])
      ensures found <==> Text(normalized) in Blocked()
    {
      prev, cur, found, k := null, head, false, 0;
      while cur != null
        invariant k <= |spine| && cur == At(spine, k) && prev == Before(spine, k)
        invariant forall i :: 0 <= i < k ==> Less(keys[i], Text(normalized))
        decreases |spine| - k
      {
        assert Paths()[spine[k]] == cur.path && Links()[spine[k]] == cur.next;
        var cmp := Compare(normalized, cur.path);
        if cmp == 0 {
          found := true;
          return;
        }
        if cmp < 0 {
          break;
        }
        prev, cur, k := cur, cur.next, k + 1;
      }
      AscendingInsert(keys, k, Text(normalized));
    }

    /** Normalizes a caller's path into a buffer of its own. */
    method NormalizeInto(path: array<WChar>) returns (normalized: array<WChar>, rc: Status)
      requires Readable(path[..])
      ensures fresh(normalized) && normalized.Length == MAX_PATH
      ensures rc == if InLimit(path[..]) then Success else PathTooLong
      ensures rc == Success ==> Text(normalized[..]) == Key(path[..]) && InLimit(normalized[..])
    {
      normalized := new WChar[MAX_PATH];
      ghost var scanned;
      rc, scanned := NormalizePath(normalized, path);
      if rc == Success {
        assert Text(normalized[..]) == Key(path[..]);
        assert |Key(path[..])| == TextLen(path[..]);
      }
    }

    /** Makes `target` the successor of `prev`, or the first entry when there is no `prev`. */
    method SetNext(prev: Entry?, target: Entry?)
      requires prev != null ==> prev in live
      modifies this`head, live`next
      ensures head == if prev == null then target else old(head)
      ensures Links() == if prev == null then old(Links()) else old(Links())[prev := target]
    {
      if prev != null {
        prev.next := target;
      } else {
        head := target;
      }
    }

    /** Links a fresh entry, already filled in, in front of position `k`. */
    method Attach(entry: Entry, prev: Entry?, ghost k: nat, ghost key: Path)
      requires Linked() && k <= |spine| && prev == Before(spine, k) && entry.next == At(spine, k)
      requires entry !in live && Holds(entry.path, key)
      requires forall i :: 0 <= i < k ==> Less(keys[i], key)
      requires k < |spine| ==> Less(key, keys[k])
      modifies this`head, this`spine, this`keys, this`live, this`outstanding, live`next
      ensures Linked() && live == old(live) + {entry} && outstanding == old(outstanding) + 1
      ensures |spine| == |old(spine)| + 1 && Blocked() == old(Blocked()) + {key}
    {
      LinkIn(entry, prev, k, key);
      Adopt(entry);
    }

    /** The relinking alone. */
    method LinkIn(entry: Entry, prev: Entry?, ghost k: nat, ghost key: Path)
      requires Linked() && k <= |spine| && prev == Before(spine, k) && entry.next == At(spine, k)
      requires entry !in live && Holds(entry.path, key)
      requires forall i :: 0 <= i < k ==> Less(keys[i], key)
      requires k < |spine| ==> Less(key, keys[k])
      modifies this`head, this`spine, this`keys, live`next
      ensures Listing(head, spine, keys, live + {entry}, Links()[entry := entry.next], Paths()[entry := entry.path])
      ensures |spine| == |old(spine)| + 1 && Blocked() == old(Blocked()) + {key}
    {
      ghost var links: map<Entry, Entry?>, paths := Links(), Paths();
      ghost var spine', keys' := Inserted(head, spine, keys, live, links, paths, k, entry, key, entry.path);
      spine, keys := spine', keys';
      SetNext(prev, entry);
      assert Paths() == paths;
    }

    /** Unlinks the entry at position `k` and frees it. */
    method Detach(entry: Entry, prev: Entry?, ghost k: nat)
      requires Linked() && outstanding > 0 && k < |spine| && entry == spine[k] && prev == Before(spine, k)
      modifies this`head, this`spine, this`keys, this`live, this`outstanding, live`next
      ensures Linked() && live == old(live) - {entry} && outstanding == old(outstanding) - 1
      ensures |spine| == |old(spine)| - 1 && Blocked() == old(Blocked()) - {old(keys)[k]}
    {
      assert entry in live;
      LinkOut(entry, prev, k);
      Free(entry);
    }

    /** The relinking alone. */
    method LinkOut(entry: Entry, prev: Entry?, ghost k: nat)
      requires Linked() && k < |spine| && entry == spine[k] && prev == Before(spine, k)
      modifies this`head, this`spine, this`keys, live`next
      ensures Listing(head, spine, keys, live - {entry}, Links() - {entry}, Paths() - {entry})
      ensures |spine| == |old(spine)| - 1 && Blocked() == old(Blocked()) - {old(keys)[k]}
    {
      ghost var links: map<Entry, Entry?>, paths := Links(), Paths();
      ghost var spine', keys' := Removed(head, spine, keys, live, links, paths, k);
      spine, keys := spine', keys';
      SetNext(prev, entry.next);
      assert Paths() == paths;
    }

    /** The critical section of add. */
    method Insert(normalized: Path, memory: bool) returns (rc: Status)
      requires Valid() && lock.held && |normalized| == MAX_PATH && InLimit(normalized)
      modifies this, live`next
      ensures Valid()
      ensures rc == if Text(normalized) in old(Blocked()) then Duplicate else if !memory then AllocFail else Success
      ensures Blocked() == if rc == Success then old(Blocked()) + {Text(normalized)} else old(Blocked())
      ensures |spine| == if rc == Success then |old(spine)| + 1 else |old(spine)|
      ensures rc != Success ==> spine == old(spine)
      ensures fresh(live - old(live))
    {
      var prev, cur, found;
      ghost var k;
      prev, cur, found, k := Locate(normalized);
      if found {
        return Duplicate;
      }
      var entry := Alloc(memory, cur, normalized);
      if entry == null {
        return AllocFail;
      }
      Attach(entry, prev, k, Text(normalized));
      count := (count + 1) % COUNT_RANGE;
      return Success;
    }

    /** The critical section of remove. */
    method Delete(normalized: Path) returns (rc: Status)
      requires Valid() && lock.held && |normalized| == MAX_PATH
      modifies this, live`next
      ensures Valid()
      ensures rc == if Text(normalized) in old(Blocked()) then Success else NotFound
      ensures Blocked() == old(Blocked()) - {Text(normalized)}
      ensures |spine| == if rc == Success then |old(spine)| - 1 else |old(spine)|
      ensures rc != Success ==> spine == old(spine)
      ensures live <= old(live)
    {
      var prev, cur, found;
      ghost var k;
      prev, cur, found, k := Locate(normalized);
      if !found {
        return NotFound;
      }
      Detach(cur, prev, k);
      count := if count == 0 then COUNT_RANGE - 1 else count - 1;
      return Success;
    }

    /** Whatever the critical section answers, the lock is released on the way out. */
    method Add(path: array?<WChar>, memory: bool) returns (rc: Status)
      requires Valid() && !lock.held
      requires path != null ==> Readable(path[..])
      modifies this, lock, live`next
      ensures Valid() && !lock.held
      ensures path == null ==> rc == NullArg
      ensures path != null ==>
                rc == if !InLimit(path[..]) then PathTooLong
                      else if Key(path[..]) in old(Blocked()) then Duplicate
                      else if !memory then AllocFail
                      else Success
      ensures Blocked() == if rc == Success then old(Blocked()) + {Key(path[..])} else old(Blocked())
      ensures |spine| == if rc == Success then |old(spine)| + 1 else |old(spine)|
      ensures rc != Success ==> spine == old(spine)
      ensures fresh(live - old(live))
    {
      if path == null {
        return NullArg;
      }
      var normalized;
      normalized, rc := NormalizeInto(path);
      if rc == Success {
        lock.Acquire();
        rc := Insert(normalized[..], memory);
        lock.Release();
      }
    }

    method Remove(path: array?<WChar>) returns (rc: Status)
      requires Valid() && !lock.held
      requires path != null ==> Readable(path[..])
      modifies this, lock, live`next
      ensures Valid() && !lock.held
      ensures path == null ==> rc == NullArg
      ensures path != null ==>
                rc == if !InLimit(path[..]) then PathTooLong
                      else if Key(path[..]) in old(Blocked()) then Success
                      else NotFound
      ensures Blocked() == if rc == Success then old(Blocked()) - {Key(path[..])} else old(Blocked())
      ensures |spine| == if rc == Success then |old(spine)| - 1 else |old(spine)|
      ensures rc != Success ==> spine == old(spine)
      ensures live <= old(live)
    {
      if path == null {
        return NullArg;
      }
      var normalized;
      normalized, rc := NormalizeInto(path);
      if rc == Success {
        lock.Acquire();
        rc := Delete(normalized[..]);
        lock.Release();
      }
    }

    method Contains(path: array?<WChar>) returns (hit: bool)
      requires Valid() && !lock.held
      requires path != null ==> Readable(path[..])
      modifies lock
      ensures Valid() && !lock.held
      ensures hit <==> path != null && InLimit(path[..]) && Key(path[..]) in Blocked()
    {
      if path == null {
        return false;
      }
      var normalized, rc := NormalizeInto(path);
      if rc != Success {
        return false;
      }
      lock.Acquire();
      var prev, cur, found;
      ghost var k;
      prev, cur, found, k := Locate(normalized[..]);
      lock.Release();
      return found;
    }

    method Count() returns (n: nat)
      requires Valid() && !lock.held
      modifies lock
      ensures Valid() && !lock.held
      ensures n == |Blocked()| % COUNT_RANGE
    {
      lock.Acquire();
      n := count;
      lock.Release();
      DistinctCount(keys);
    }

    /** Walks the list and frees every entry exactly once. */
    method FreeAll()
      requires Linked() && outstanding == |spine|
      modifies this`live, this`outstanding
      ensures outstanding == 0
    {
      KeysSeparate(spine, keys, Paths());
      ghost var links := Links();
      var cur := head;
      ghost var k := 0;
      while cur != null
        invariant k <= |spine| && cur == At(spine, k) && outstanding == |spine| - k
        invariant forall i {:trigger spine[i]} :: k <= i < |spine| ==> spine[i] in live
        decreases |spine| - k
      {
        assert links[spine[k]] == cur.next;
        var next := cur.next;
        Free(cur);
        cur, k := next, k + 1;
      }
    }

    method Destroy()
      requires Valid() && !lock.held
      modifies this, lock
      ensures Valid() && !lock.held && Blocked() == {} && outstanding == 0
    {
      lock.Acquire();
      FreeAll();
      head, count := null, 0;
      spine, keys := [], [];
      lock.Release();
    }
  }
}
