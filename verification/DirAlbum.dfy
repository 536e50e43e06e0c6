/** The directory-to-album cache (backend/src/process/dir_album.rs): lookups both ways, and
    re-keying a subtree after a directory move. */
module DirAlbum {
  import opened Wrappers

  /** A path as its components, outermost first. */
  type Path = seq<string>
  type AlbumId = string
  type Cache = map<Path, AlbumId>

  predicate Beneath(p: Path, prefix: Path) {
    prefix <= p
  }

  /** The place of `p` after `src` has been moved to `dst`. */
  function Image(p: Path, src: Path, dst: Path): Path
    requires Beneath(p, src)
  {
    dst + p[|src|..]
  }

  function Matching(c: Cache, src: Path): set<Path> {
    set p | p in c && Beneath(p, src)
  }

  /** The album of the directory directly above, if it has one. */
  function ParentId(c: Cache, p: Path): Option<AlbumId> {
    if p == [] then None else Lookup(c, p[..|p| - 1])
  }

  predicate Injective(c: Cache) {
    forall p, q :: p in c && q in c && c[p] == c[q] ==> p == q
  }

  predicate Distinct(order: seq<Path>) {
    forall i, j :: 0 <= i < j < |order| ==> order[i] != order[j]
  }

  /** `order` enumerates the entries at or beneath `src`, as a hash map may iterate them. */
  ghost predicate IsOrder(c: Cache, src: Path, order: seq<Path>) {
    Distinct(order) && forall p :: p in order <==> p in Matching(c, src)
  }

  /** Re-key one entry: remove it, then insert its id at its new place. */
  function MoveOne(c: Cache, p: Path, to: Path, id: AlbumId): Cache {
    (c - {p})[to := id]
  }

  /** Re-key the entries of `order` one after the other, with the ids they had in `c`. */
  function MoveAll(c: Cache, src: Path, dst: Path, order: seq<Path>): Cache
    requires forall p :: p in order ==> p in c && Beneath(p, src)
  {
    if order == [] then c
    else
      var n := |order| - 1;
      MoveOne(MoveAll(c, src, dst, order[..n]), order[n], Image(order[n], src, dst), c[order[n]])
  }

  // ---- The cache, updated in place

  class DirAlbumCache {
    var cache: Cache

    /** Creation happens at most once per directory; a failed database write leaves no entry. With a
        fresh id this is a `Create` step. */
    method GetOrCreate(dir: Path, newId: AlbumId, dbOk: bool) returns (r: Option<AlbumId>)
      modifies this
      ensures cache == if dir in old(cache) || !dbOk then old(cache) else old(cache)[dir := newId]
      ensures r == Lookup(cache, dir)
      ensures dbOk && newId !in old(cache).Values ==> cache == Do(old(cache), Create(dir, newId))
    {
      if dir in cache {
        return Some(cache[dir]);
      }
      if !dbOk {
        return None;
      }
      cache := cache[dir := newId];
      r := Some(newId);
    }

    /** The directory has no album until the next creation, its album no directory, and every other
        lookup is as before: an `Evict` step. */
    method Evict(dir: Path)
      modifies this
      ensures forall p :: Lookup(cache, p) == if p == dir then None else Lookup(old(cache), p)
      ensures Injective(old(cache)) && dir in old(cache) ==> old(cache)[dir] !in cache.Values
      ensures cache == Do(old(cache), Op.Evict(dir))
    {
      cache := cache - {dir};
    }

    /** The first entry found with this id, in whatever order the map iterates. */
    method DirOf(id: AlbumId) returns (r: Option<Path>)
      ensures r.Some? ==> r.value in cache && cache[r.value] == id
      ensures r.None? ==> forall p :: p in cache ==> cache[p] != id
    {
      var todo := cache.Keys;
      while todo != {}
        invariant todo <= cache.Keys
        invariant forall p :: p in cache && p !in todo ==> cache[p] != id
        decreases |todo|
      {
        var p :| p in todo;
        if cache[p] == id {
          return Some(p);
        }
        todo := todo - {p};
      }
      r := None;
    }

    /** Collect the matching entries, then move each; `order` is the iteration that was taken. This is
        a `Move` step. */
    method RewritePrefix(src: Path, dst: Path) returns (ghost order: seq<Path>)
      modifies this
      ensures IsOrder(old(cache), src, order)
      ensures cache == MoveAll(old(cache), src, dst, order) == Do(old(cache), Move(src, dst, order))
    {
      order := [];
      var snapshot := cache;
      var todo := Matching(cache, src);
      while todo != {}
        invariant todo <= Matching(snapshot, src) && Distinct(order)
        invariant forall p :: p in order <==> p in Matching(snapshot, src) && p !in todo
        invariant cache == MoveAll(snapshot, src, dst, order)
        decreases |todo|
      {
        var p :| p in todo;
        cache := MoveOne(cache, p, Image(p, src, dst), snapshot[p]);
        assert (order + [p])[..|order|] == order;
        order := order + [p];
        todo := todo - {p};
      }
    }
  }

  // ---- Where ids are during a move

  lemma ImageInjective(p: Path, q: Path, src: Path, dst: Path)
    requires Beneath(p, src) && Beneath(q, src) && Image(p, src, dst) == Image(q, src, dst)
    ensures p == q
  {
    assert p == src + p[|src|..] && q == src + q[|src|..];
    assert p[|src|..] == Image(p, src, dst)[|dst|..];
    assert q[|src|..] == Image(q, src, dst)[|dst|..];
  }

  lemma FixedOnlyIfSame(p: Path, src: Path, dst: Path)
    requires Beneath(p, src) && Image(p, src, dst) == p
    ensures src == dst
  {
    assert |dst| == |src|;
    assert dst == p[..|dst|] && src == p[..|src|];
  }

  /** Entry `k` of a partly moved cache holds the id of source `s`: one already moved here, or
      `k` itself, not moved and not overwritten. */
  predicate Source(src: Path, dst: Path, order: seq<Path>, k: Path, s: Path)
    requires forall p :: p in order ==> Beneath(p, src)
  {
    || (s in order && k == Image(s, src, dst))
    || (s !in order && k == s && forall r :: r in order ==> Image(r, src, dst) != k)
  }

  lemma {:induction false} EveryEntryHasSource(c: Cache, src: Path, dst: Path, order: seq<Path>, k: Path)
    returns (s: Path)
    requires forall p :: p in order ==> p in c && Beneath(p, src)
    requires Distinct(order) && k in MoveAll(c, src, dst, order)
    ensures s in c && Source(src, dst, order, k, s) && MoveAll(c, src, dst, order)[k] == c[s]
    decreases |order|
  {
    if order == [] {
      s := k;
    } else {
      var n := |order| - 1;
      var before, last := order[..n], order[n];
      assert order == before + [last];
      if k == Image(last, src, dst) {
        s := last;
      } else {
        s := EveryEntryHasSource(c, src, dst, before, k);
      }
    }
  }

  // ---- Injectivity survives every run

  lemma MoveKeepsInjective(c: Cache, src: Path, dst: Path, order: seq<Path>)
    requires Injective(c) && IsOrder(c, src, order)
    ensures Injective(MoveAll(c, src, dst, order))
  {
    var m := MoveAll(c, src, dst, order);
    forall p, q | p in m && q in m && m[p] == m[q] ensures p == q {
      var s := EveryEntryHasSource(c, src, dst, order, p);
      var t := EveryEntryHasSource(c, src, dst, order, q);
      assert s == t;
    }
  }

  datatype Op = Create(dir: Path, id: AlbumId) | Evict(dir: Path) | Move(src: Path, dst: Path, order: seq<Path>)

  /** Fresh ids are never those of a cached album, and a move takes some iteration order. */
  ghost function Do(c: Cache, op: Op): Cache {
    match op
    case Create(dir, id) => if dir in c || id in c.Values then c else c[dir := id]
    case Evict(dir) => c - {dir}
    case Move(src, dst, order) => if IsOrder(c, src, order) then MoveAll(c, src, dst, order) else c
  }

  ghost function Run(c: Cache, ops: seq<Op>): Cache {
    if ops == [] then c else Do(Run(c, ops[..|ops| - 1]), ops[|ops| - 1])
  }

  lemma DoKeepsInjective(c: Cache, op: Op)
    requires Injective(c)
    ensures Injective(Do(c, op))
  {
    match op {
      case Move(src, dst, order) =>
        if IsOrder(c, src, order) {
          MoveKeepsInjective(c, src, dst, order);
        }
      case Create(dir, id) =>
        forall p | p in c ensures c[p] in c.Values {
        }
      case Evict(_) =>
    }
  }

  /** Over every run of creations, evictions and moves, whatever the iteration orders and however
      the prefixes overlap, no two directories ever share an album, so the lookups by directory
      and by album stay inverse. */
  lemma {:induction false} LookupsStayInverse(c: Cache, ops: seq<Op>, dir: Path, found: Path, id: AlbumId)
    requires Injective(c)
    ensures Injective(Run(c, ops))
    ensures found in Run(c, ops) && Run(c, ops)[found] == id ==>
      (Lookup(Run(c, ops), dir) == Some(id) <==> dir == found)
  {
    if ops != [] {
      LookupsStayInverse(c, ops[..|ops| - 1], dir, found, id);
      DoKeepsInjective(Run(c, ops[..|ops| - 1]), ops[|ops| - 1]);
    }
  }

  // ---- When a move conserves every album

  /** No entry's new place is already a cached path. */
  predicate NoCollision(c: Cache, src: Path, dst: Path) {
    forall p :: p in Matching(c, src) ==> Image(p, src, dst) !in c
  }

  /** The entry moved last is at its new place, and no other new place is disturbed. */
  lemma LastMoveLookup(c: Cache, m: Cache, src: Path, dst: Path, last: Path, q: Path)
    requires last in c && Beneath(last, src)
    ensures Lookup(MoveOne(m, last, Image(last, src, dst), c[last]), q)
         == if q == Image(last, src, dst) then Some(c[last]) else if q == last then None else Lookup(m, q)
  {
  }

  /** A place some entry moves to holds that entry's album. */
  lemma {:induction false} MovedTo(c: Cache, src: Path, dst: Path, order: seq<Path>, p: Path)
    requires forall r :: r in order ==> r in c && Beneath(r, src)
    requires Distinct(order) && NoCollision(c, src, dst) && p in order
    ensures Lookup(MoveAll(c, src, dst, order), Image(p, src, dst)) == Some(c[p])
    decreases |order|
  {
    var n := |order| - 1;
    var before, last, q := order[..n], order[n], Image(p, src, dst);
    assert order == before + [last];
    assert p in Matching(c, src) && q !in c;
    LastMoveLookup(c, MoveAll(c, src, dst, before), src, dst, last, q);
    if q == Image(last, src, dst) {
      ImageInjective(p, last, src, dst);
    } else {
      MovedTo(c, src, dst, before, p);
    }
  }

  /** Any other place loses its entry if that moved, and keeps it otherwise. */
  lemma {:induction false} NotMovedTo(c: Cache, src: Path, dst: Path, order: seq<Path>, q: Path)
    requires forall r :: r in order ==> r in c && Beneath(r, src)
    requires forall r :: r in order ==> Image(r, src, dst) != q
    ensures Lookup(MoveAll(c, src, dst, order), q) == if q in order then None else Lookup(c, q)
    decreases |order|
  {
    if order != [] {
      var n := |order| - 1;
      var before, last := order[..n], order[n];
      assert order == before + [last];
      LastMoveLookup(c, MoveAll(c, src, dst, before), src, dst, last, q);
      NotMovedTo(c, src, dst, before, q);
    }
  }

  /** The cache with the subtree in its new place. */
  ghost function Moved(c: Cache, src: Path, dst: Path): Cache {
    map q | q in (c.Keys - Matching(c, src)) + (set p | p in Matching(c, src) :: Image(p, src, dst)) ::
      if q in c && !Beneath(q, src) then c[q] else (var p :| p in Matching(c, src) && Image(p, src, dst) == q; c[p])
  }

  lemma MovedLookup(c: Cache, src: Path, dst: Path, q: Path)
    requires NoCollision(c, src, dst)
    ensures forall p :: p in Matching(c, src) && Image(p, src, dst) == q ==> Lookup(Moved(c, src, dst), q) == Some(c[p])
    ensures (forall p :: p in Matching(c, src) ==> Image(p, src, dst) != q) ==>
      Lookup(Moved(c, src, dst), q) == if q in Matching(c, src) then None else Lookup(c, q)
  {
    forall p, r | p in Matching(c, src) && r in Matching(c, src) && Image(p, src, dst) == q == Image(r, src, dst)
      ensures p == r
    {
      ImageInjective(p, r, src, dst);
    }
  }

  /** Without collisions every iteration order gives the same cache. */
  lemma OrderDoesNotMatter(c: Cache, src: Path, dst: Path, order: seq<Path>)
    requires IsOrder(c, src, order) && NoCollision(c, src, dst)
    ensures MoveAll(c, src, dst, order) == Moved(c, src, dst)
  {
    forall q ensures Lookup(MoveAll(c, src, dst, order), q) == Lookup(Moved(c, src, dst), q) {
      MovedLookup(c, src, dst, q);
      if p :| p in Matching(c, src) && Image(p, src, dst) == q {
        MovedTo(c, src, dst, order, p);
      } else {
        NotMovedTo(c, src, dst, order, q);
      }
    }
    SameLookups(MoveAll(c, src, dst, order), Moved(c, src, dst));
  }

  lemma MovedConserves(c: Cache, src: Path, dst: Path)
    requires NoCollision(c, src, dst)
    ensures Moved(c, src, dst).Values == c.Values
  {
    var m := Moved(c, src, dst);
    forall id | id in c.Values ensures id in m.Values {
      var p :| p in c && c[p] == id;
      var q := if Beneath(p, src) then Image(p, src, dst) else p;
      MovedLookup(c, src, dst, q);
      assert p in Matching(c, src) <==> Beneath(p, src);
      assert Lookup(m, q) == Some(id);
    }
    forall id | id in m.Values ensures id in c.Values {
      var q :| q in m && m[q] == id;
      MovedLookup(c, src, dst, q);
    }
  }

  lemma {:induction false} MoveToItself(c: Cache, src: Path, order: seq<Path>)
    requires forall p :: p in order ==> p in c && Beneath(p, src)
    ensures MoveAll(c, src, src, order) == c
    decreases |order|
  {
    if order != [] {
      var n := |order| - 1;
      MoveToItself(c, src, order[..n]);
      assert Image(order[n], src, src) == order[n];
    }
  }

  lemma {:induction false} Enumerate(s: set<Path>) returns (order: seq<Path>)
    ensures Distinct(order) && forall p :: p in order <==> p in s
  {
    if s == {} {
      order := [];
    } else {
      var p :| p in s;
      var rest := Enumerate(s - {p});
      order := rest + [p];
    }
  }

  /** Moving onto an unmoved entry loses that entry's album, in every order. */
  lemma OverwritingLoses(c: Cache, src: Path, dst: Path, order: seq<Path>, p: Path)
    requires Injective(c) && IsOrder(c, src, order)
    requires p in Matching(c, src) && Image(p, src, dst) in c && !Beneath(Image(p, src, dst), src)
    ensures c[Image(p, src, dst)] !in MoveAll(c, src, dst, order).Values
  {
    var q, m := Image(p, src, dst), MoveAll(c, src, dst, order);
    assert p in order;
    if c[q] in m.Values {
      var k :| k in m && m[k] == c[q];
      var s := EveryEntryHasSource(c, src, dst, order, k);
      assert false;
    }
  }

  lemma {:induction false} StaysAbsent(c: Cache, src: Path, dst: Path, p: Path, q: Path, rest: seq<Path>)
    requires src != dst && forall r :: r in [p, q] + rest ==> r in c && Beneath(r, src)
    requires Distinct([p, q] + rest) && Image(p, src, dst) == q
    ensures q !in MoveAll(c, src, dst, [p, q] + rest)
    decreases |rest|
  {
    var order := [p, q] + rest;
    var n := |order| - 1;
    assert order[0] == p && order[1] == q;
    var last := order[n];
    if rest == [] {
      if Image(q, src, dst) == q {
        FixedOnlyIfSame(q, src, dst);
      }
    } else {
      assert order[..n] == [p, q] + rest[..|rest| - 1];
      StaysAbsent(c, src, dst, p, q, rest[..|rest| - 1]);
      if Image(last, src, dst) == q {
        ImageInjective(last, p, src, dst);
      }
    }
  }

  /** Moving onto an entry that moves later loses the album moved there. */
  lemma MovingTooEarlyLoses(c: Cache, src: Path, dst: Path, p: Path) returns (order: seq<Path>)
    requires Injective(c) && src != dst
    requires p in Matching(c, src) && Image(p, src, dst) in Matching(c, src)
    ensures IsOrder(c, src, order) && c[p] !in MoveAll(c, src, dst, order).Values
  {
    var q := Image(p, src, dst);
    if p == q {
      FixedOnlyIfSame(p, src, dst);
    }
    var rest := Enumerate(Matching(c, src) - {p, q});
    order := [p, q] + rest;
    assert IsOrder(c, src, order);
    StaysAbsent(c, src, dst, p, q, rest);
    var m := MoveAll(c, src, dst, order);
    if c[p] in m.Values {
      var k :| k in m && m[k] == c[p];
      var s := EveryEntryHasSource(c, src, dst, order, k);
      assert false;
    }
  }

  /** A move keeps every album, in every iteration order, if and only if it goes nowhere or no
      entry's new place is already cached. */
  lemma ConservesIff(c: Cache, src: Path, dst: Path)
    requires Injective(c)
    ensures (forall order :: IsOrder(c, src, order) ==> MoveAll(c, src, dst, order).Values == c.Values)
      <==> src == dst || NoCollision(c, src, dst)
  {
    if src == dst {
      forall order | IsOrder(c, src, order) ensures MoveAll(c, src, dst, order).Values == c.Values {
        MoveToItself(c, src, order);
      }
    } else if NoCollision(c, src, dst) {
      forall order | IsOrder(c, src, order) ensures MoveAll(c, src, dst, order).Values == c.Values {
        OrderDoesNotMatter(c, src, dst, order);
        MovedConserves(c, src, dst);
      }
    } else {
      var p :| p in Matching(c, src) && Image(p, src, dst) in c;
      if Beneath(Image(p, src, dst), src) {
        var order := MovingTooEarlyLoses(c, src, dst, p);
        assert c[p] in c.Values;
      } else {
        var order := Enumerate(Matching(c, src));
        OverwritingLoses(c, src, dst, order, p);
        assert c[Image(p, src, dst)] in c.Values;
      }
    }
  }

  // ---- Moving into free space

  predicate FreeTarget(c: Cache, dst: Path) {
    forall p :: p in c ==> !Beneath(p, dst)
  }

  lemma FreeTargetNeverCollides(c: Cache, src: Path, dst: Path)
    requires FreeTarget(c, dst)
    ensures NoCollision(c, src, dst)
  {
    forall p | p in Matching(c, src) ensures Image(p, src, dst) !in c {
      assert Beneath(Image(p, src, dst), dst);
    }
  }

  /** With nothing cached at or beneath the target, every nested album keeps its parent, and so
      does every album that did not move. */
  lemma ParentsAreKept(c: Cache, src: Path, dst: Path, p: Path)
    requires FreeTarget(c, dst) && p in c && p != src
    ensures ParentId(Moved(c, src, dst), if Beneath(p, src) then Image(p, src, dst) else p) == ParentId(c, p)
  {
    FreeTargetNeverCollides(c, src, dst);
    if p != [] {
      var up := p[..|p| - 1];
      if Beneath(p, src) {
        assert Beneath(up, src);
        var to := Image(up, src, dst);
        assert Image(p, src, dst)[..|Image(p, src, dst)| - 1] == to;
        MovedLookup(c, src, dst, to);
        if up in c {
          assert up in Matching(c, src);
        } else {
          forall r | r in Matching(c, src) ensures Image(r, src, dst) != to {
            if Image(r, src, dst) == to {
              ImageInjective(r, up, src, dst);
            }
          }
          assert Beneath(to, dst);
        }
      } else {
        assert !Beneath(up, src);
        MovedLookup(c, src, dst, up);
        forall r | r in Matching(c, src) ensures Image(r, src, dst) != up {
          assert Beneath(Image(r, src, dst), dst);
          assert !Beneath(p, dst);
        }
      }
    }
  }

  /** Moving a subtree into free space and back restores the cache, whatever the two orders. */
  lemma MoveBackRestores(c: Cache, src: Path, dst: Path, there: seq<Path>, back: seq<Path>)
    requires FreeTarget(c, dst) && IsOrder(c, src, there)
    requires IsOrder(MoveAll(c, src, dst, there), dst, back)
    ensures MoveAll(MoveAll(c, src, dst, there), dst, src, back) == c
  {
    FreeTargetNeverCollides(c, src, dst);
    OrderDoesNotMatter(c, src, dst, there);
    var m := Moved(c, src, dst);
    MovedBackNeverCollides(c, src, dst);
    OrderDoesNotMatter(m, dst, src, back);
    forall q ensures Lookup(Moved(m, dst, src), q) == Lookup(c, q) {
      MovedBackLookup(c, src, dst, q);
    }
    SameLookups(Moved(m, dst, src), c);
  }

  lemma ImageBack(p: Path, src: Path, dst: Path)
    requires Beneath(p, src)
    ensures Beneath(Image(p, src, dst), dst) && Image(Image(p, src, dst), dst, src) == p
  {
    assert Image(p, src, dst)[|dst|..] == p[|src|..];
    assert p == src + p[|src|..];
  }

  /** What lies beneath the target after a move into free space is what was moved there. */
  lemma BeneathTarget(c: Cache, src: Path, dst: Path, q: Path) returns (p: Path)
    requires FreeTarget(c, dst) && q in Matching(Moved(c, src, dst), dst)
    ensures p in Matching(c, src) && Image(p, src, dst) == q && Moved(c, src, dst)[q] == c[p]
  {
    FreeTargetNeverCollides(c, src, dst);
    MovedLookup(c, src, dst, q);
    p :| p in Matching(c, src) && Image(p, src, dst) == q;
  }

  lemma MovedBackNeverCollides(c: Cache, src: Path, dst: Path)
    requires FreeTarget(c, dst)
    ensures NoCollision(Moved(c, src, dst), dst, src)
  {
    var m := Moved(c, src, dst);
    FreeTargetNeverCollides(c, src, dst);
    forall q | q in Matching(m, dst) ensures Image(q, dst, src) !in m {
      var p := BeneathTarget(c, src, dst, q);
      ImageBack(p, src, dst);
      MovedLookup(c, src, dst, p);
    }
  }

  lemma MovedBackLookup(c: Cache, src: Path, dst: Path, q: Path)
    requires FreeTarget(c, dst)
    ensures Lookup(Moved(Moved(c, src, dst), dst, src), q) == Lookup(c, q)
  {
    var m := Moved(c, src, dst);
    FreeTargetNeverCollides(c, src, dst);
    MovedBackNeverCollides(c, src, dst);
    MovedLookup(m, dst, src, q);
    MovedLookup(c, src, dst, q);
    if q in Matching(c, src) {
      var to := Image(q, src, dst);
      ImageBack(q, src, dst);
      MovedLookup(c, src, dst, to);
      assert to in Matching(m, dst);
    } else {
      forall r | r in Matching(m, dst) ensures Image(r, dst, src) != q {
        var p := BeneathTarget(c, src, dst, r);
        ImageBack(p, src, dst);
      }
    }
  }

  // ---- The parent of a directory

  /** The parent of a directory is whatever album its containing directory has: none at the top, the
      new one after a creation there, none after an eviction there, and unmoved by creations and
      evictions anywhere else. */
  lemma ParentIsOneUp(c: Cache, dir: Path, name: string, at: Path, id: AlbumId)
    ensures ParentId(c, []) == None
    ensures ParentId(c, dir + [name]) == Lookup(c, dir)
    ensures dir !in c && id !in c.Values ==> ParentId(Do(c, Create(dir, id)), dir + [name]) == Some(id)
    ensures ParentId(Do(c, Evict(dir)), dir + [name]) == None
    ensures at != dir ==> ParentId(Do(c, Create(at, id)), dir + [name]) == ParentId(c, dir + [name])
    ensures at != dir ==> ParentId(Do(c, Evict(at)), dir + [name]) == ParentId(c, dir + [name])
  {
    assert (dir + [name])[..|dir|] == dir;
  }
}
