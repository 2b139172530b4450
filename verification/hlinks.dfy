/** Hard-link ids: where the data of each id lies, and which id is handed out next. */
module HardLinkIds {
  import opened Bytes

  /** Links per data page, data pages per chunk, bytes per link. A chunk is a bitmap page and its data pages. */
  datatype Layout = Layout(perPage: nat, pages: nat, size: nat)

  predicate Wf(l: Layout) {
    l.perPage > 0 && l.pages > 0 && l.size > 0
  }

  /** The ids whose bits one bitmap page holds. */
  function PerChunk(l: Layout): nat {
    l.perPage * l.pages
  }

  function BitmapPage(l: Layout, chunk: nat): nat {
    chunk * l.pages + chunk
  }

  lemma PerChunkPositive(l: Layout)
    requires Wf(l)
    ensures PerChunk(l) > 0
  {
  }

  /** The page and the offset in it of the data of a link. */
  function Place(l: Layout, id: nat): (nat, nat)
    requires Wf(l)
  {
    PerChunkPositive(l);
    var chunk, bit := id / PerChunk(l), id % PerChunk(l);
    (BitmapPage(l, chunk) + 1 + bit / l.perPage, bit % l.perPage * l.size)
  }

  /** The id whose data lies at a place. */
  function IdAt(l: Layout, page: nat, offset: nat): int
    requires Wf(l)
  {
    page / (l.pages + 1) * PerChunk(l) + (page % (l.pages + 1) - 1) * l.perPage + offset / l.size
  }

  lemma MulLe(d: nat, a: nat, b: nat)
    requires a <= b
    ensures d * a <= d * b
  {
    if a < b {
      MulMono(d, a, b);
    }
  }

  lemma QuotientBelow(x: nat, d: nat, n: nat)
    requires d > 0 && x < d * n
    ensures x / d < n
  {
    if n <= x / d {
      MulLe(d, n, x / d);
    }
  }

  lemma QuotientUnique(v: nat, d: nat, a: nat, r: nat)
    requires d > 0 && v == d * a + r && r < d
    ensures v / d == a && v % d == r
  {
    DivUnique(v, d, a, r);
  }

  lemma Recompose(x: nat, d: nat)
    requires d > 0
    ensures x / d * d + x % d == x && x % d < d
  {
  }

  lemma PageOfChunk(l: Layout, chunk: nat, k: nat)
    requires Wf(l) && k <= l.pages
    ensures var page := BitmapPage(l, chunk) + k; page / (l.pages + 1) == chunk && page % (l.pages + 1) == k
  {
    var d := l.pages + 1;
    assert d * chunk == chunk * l.pages + chunk;
    QuotientUnique(BitmapPage(l, chunk) + k, d, chunk, k);
  }

  lemma OffsetOfLink(l: Layout, s: nat)
    requires Wf(l) && s < l.perPage
    ensures s * l.size / l.size == s && s * l.size % l.size == 0 && s * l.size + l.size <= l.perPage * l.size
  {
    QuotientUnique(s * l.size, l.size, s, 0);
    MulMono(l.size, s, l.perPage);
  }

  /** A place determines its id, and is never on a bitmap page. */
  lemma PlaceRoundTrip(l: Layout, id: nat)
    requires Wf(l)
    ensures var (page, offset) := Place(l, id);
            && IdAt(l, page, offset) == id && offset % l.size == 0 && offset + l.size <= l.perPage * l.size
            && forall chunk: nat :: page != BitmapPage(l, chunk)
  {
    PerChunkPositive(l);
    var b := PerChunk(l);
    var chunk, bit := id / b, id % b;
    Recompose(id, b);
    QuotientBelow(bit, l.perPage, l.pages);
    Recompose(bit, l.perPage);
    hide BitmapPage, PerChunk;
    var q, s := bit / l.perPage, bit % l.perPage;
    PageOfChunk(l, chunk, 1 + q);
    OffsetOfLink(l, s);
    forall c: nat ensures BitmapPage(l, chunk) + 1 + q != BitmapPage(l, c) {
      PageOfChunk(l, c, 0);
    }
  }

  /** Different multiples of `size` are at least that far apart. */
  lemma MultiplesApart(a: nat, b: nat, size: nat)
    requires size > 0 && a % size == 0 && b % size == 0 && a / size < b / size
    ensures a + size <= b
  {
    Recompose(a, size);
    Recompose(b, size);
    MulLe(size, a / size + 1, b / size);
  }

  /** The data of two links share no byte. */
  lemma PlacesApart(l: Layout, x: nat, y: nat)
    requires Wf(l) && x != y
    ensures var (p, a) := Place(l, x); var (q, b) := Place(l, y); p != q || a + l.size <= b || b + l.size <= a
  {
    PlaceRoundTrip(l, x);
    PlaceRoundTrip(l, y);
    hide Place, BitmapPage, PerChunk;
    var (p, a) := Place(l, x);
    var (q, b) := Place(l, y);
    if p == q {
      assert a / l.size != b / l.size;
      if a / l.size < b / l.size {
        MultiplesApart(a, b, l.size);
      } else {
        MultiplesApart(b, a, l.size);
      }
    }
  }

  class HardLinks {
    /** The set bits of all bitmap pages; a page that does not exist yet is created clear. */
    var used: set<nat>
    var lastUsedId: nat
    const layout: Layout

    /** All ids below the hint are in use. */
    ghost predicate Valid()
      reads this
    {
      Wf(layout) && forall i :: 0 <= i < lastUsedId ==> i in used
    }

    constructor (layout: Layout, used: set<nat>)
      requires Wf(layout)
      ensures Valid() && this.used == used && this.layout == layout
    {
      this.layout, this.used, lastUsedId := layout, used, 0;
    }

    /** The first clear bit of the chunk that starts at `base` from `from` on, or `perChunk`. */
    method FindNextZero(base: nat, from: nat, perChunk: nat) returns (res: nat)
      requires from <= perChunk
      ensures from <= res <= perChunk && (forall x :: base + from <= x < base + res ==> x in used)
      ensures res < perChunk ==> base + res !in used
    {
      res := from;
      while res < perChunk && base + res in used
        invariant from <= res <= perChunk && forall x :: base + from <= x < base + res ==> x in used
      {
        res := res + 1;
      }
    }

    /** Hands out the lowest free id. */
    method Obtain() returns (id: nat)
      requires Valid()
      modifies this
      ensures Valid() && id !in old(used) && (forall i :: 0 <= i < id ==> i in old(used)) && used == old(used) + {id}
      ensures lastUsedId == id
    {
      PerChunkPositive(layout);
      var perChunk := PerChunk(layout);
      hide PerChunk;
      var findFrom: nat, base: nat := lastUsedId % perChunk, lastUsedId - lastUsedId % perChunk;
      ghost var free := FreeBound(used);
      while true
        invariant findFrom < perChunk && (forall i :: 0 <= i < base + findFrom ==> i in used)
        invariant Valid() && used == old(used) && lastUsedId == old(lastUsedId)
        decreases free - (base + findFrom)
      {
        var res := FindNextZero(base, findFrom, perChunk);
        if res < perChunk {
          id := base + res;
          used := used + {id};
          lastUsedId := id;
          return;
        }
        NotAllUsed(used, free, base + perChunk);
        base, findFrom := base + perChunk, 0;
      }
    }

    /** Takes an id back. */
    method Free(id: nat)
      requires Valid() && id in used
      modifies this
      ensures Valid() && used == old(used) - {id}
      ensures lastUsedId == if id < old(lastUsedId) then id else old(lastUsedId)
    {
      used := used - {id};
      if lastUsedId > id {
        lastUsedId := id;
      }
    }
  }

  /** An id that is not in use. */
  ghost function FreeBound(used: set<nat>): (n: nat)
    ensures n !in used
  {
    NotEverything(used);
    var n: nat :| n !in used;
    n
  }

  lemma {:induction false} NotEverything(used: set<nat>)
    ensures exists n: nat :: n !in used && forall u :: u in used ==> u < n
    decreases |used|
  {
    if used == {} {
      assert 0 !in used;
    } else {
      var u :| u in used;
      NotEverything(used - {u});
      var n: nat :| n !in used - {u} && forall x :: x in used - {u} ==> x < n;
      var n' := n + u + 1;
      assert forall x :: x in used ==> x == u || x in used - {u};
      assert n' !in used;
    }
  }

  lemma NotAllUsed(used: set<nat>, free: nat, n: nat)
    requires free !in used && forall i :: 0 <= i < n ==> i in used
    ensures n <= free
  {
  }
}
