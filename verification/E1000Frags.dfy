/** The fragment allocator of lib/e1000.cpp: 128 pages used round robin, fragments laid one behind
    the other in a page.  What keeps a fragment from overlapping one still in flight is a count. */
module E1000Frags {
  import opened Machine


  const PAGES: nat := 128
  const MAX_FRAME: nat := 1500

  /** The cnt bytes of a packet take a multiple of 64: cnt += (-cnt) & 63. */
  function Rounded(cnt: nat): (r: nat)
    ensures cnt <= r < cnt + 64 && r % 64 == 0
    ensures cnt <= MAX_FRAME ==> r <= 1536
  {
    var whole, low := cnt / 64, cnt % 64;
    assert cnt == 64 * whole + low;
    assert cnt + (64 - low) % 64 == 64 * (if low == 0 then whole else whole + 1);
    cnt + (64 - low) % 64
  }

  /** A fragment: the page it lies in, counted without wrapping, its offset there and its size. */
  datatype Frag = Frag(page: nat, offset: nat, size: nat)

  /** Where a fragment starts in the page area. */
  function Start(f: Frag): nat {
    f.page % PAGES * PAGE_SIZE + f.offset
  }

  ghost predicate First(f: Frag) {
    f.page == 0 && f.offset == 0 && f.size <= 1536
  }

  /** g comes right after f: behind it in the same page, or at the start of the next page when it
      does not fit behind it. */
  ghost predicate Follows(f: Frag, g: Frag) {
    && g.size <= 1536
    && if f.offset + f.size + g.size <= PAGE_SIZE then g.page == f.page && g.offset == f.offset + f.size
       else g.page == f.page + 1 && g.offset == 0
  }

  /** The fragments handed out since initialisation. */
  ghost predicate Handed(frags: seq<Frag>) {
    && (frags != [] ==> First(frags[0]))
    && (forall k :: 0 < k < |frags| ==> Follows(frags[k - 1], frags[k]))
  }

  lemma {:induction false} InPage(frags: seq<Frag>, k: nat)
    requires Handed(frags) && k < |frags|
    ensures frags[k].offset + frags[k].size <= PAGE_SIZE && frags[k].size <= 1536
  {
    if k == 0 {
    } else {
      InPage(frags, k - 1);
      assert Follows(frags[k - 1], frags[k]);
    }
  }

  ghost predicate FirstOfPage(frags: seq<Frag>, k: nat)
    requires k < |frags|
  {
    k == 0 || frags[k - 1].page != frags[k].page
  }

  /** A page is left only after at least two fragments, so every page in between costs two allocations. */
  lemma {:induction false} PageGap(frags: seq<Frag>, j: nat, k: nat)
    requires Handed(frags) && j <= k < |frags|
    ensures frags[k].page >= frags[j].page
    ensures k - j >= 2 * (frags[k].page - frags[j].page) - 1
    ensures frags[k].page > frags[j].page && !FirstOfPage(frags, k) ==> k - j >= 2 * (frags[k].page - frags[j].page)
    decreases k
  {
    if j == k {
    } else {
      PageGap(frags, j, k - 1);
      InPage(frags, k - 1);
      assert Follows(frags[k - 1], frags[k]);
      if k - 1 > 0 {
        assert Follows(frags[k - 2], frags[k - 1]);
      }
    }
  }

  lemma {:induction false} SamePage(frags: seq<Frag>, j: nat, k: nat)
    requires Handed(frags) && j < k < |frags| && frags[k].page == frags[j].page
    ensures frags[j].offset + frags[j].size <= frags[k].offset
    decreases k
  {
    assert Follows(frags[k - 1], frags[k]);
    if j == k - 1 {
    } else {
      PageGap(frags, j, k - 1);
      PageGap(frags, k - 1, k);
      SamePage(frags, j, k - 1);
    }
  }

  ghost predicate Apart(f: Frag, g: Frag) {
    Start(f) + f.size <= Start(g) || Start(g) + g.size <= Start(f)
  }

  /** At least 254 allocations lie between two uses of a page: a fragment is apart from the 254 before it. */
  lemma RecentApart(frags: seq<Frag>, j: nat, k: nat)
    requires Handed(frags) && j < k < |frags| && k - j <= 254
    ensures Apart(frags[j], frags[k])
  {
    InPage(frags, j);
    InPage(frags, k);
    PageGap(frags, j, k);
    var d := frags[k].page - frags[j].page;
    if d == 0 {
      SamePage(frags, j, k);
    } else {
      PagesApart(frags[j].page, frags[k].page);
    }
  }

  lemma PagesApart(a: nat, b: nat)
    requires a < b < a + PAGES
    ensures a % PAGES * PAGE_SIZE + PAGE_SIZE <= b % PAGES * PAGE_SIZE ||
            b % PAGES * PAGE_SIZE + PAGE_SIZE <= a % PAGES * PAGE_SIZE
  {
  }

  /** The bound is tight: fragments 255 allocations apart can overlap. */
  lemma MarginIsExact(frags: seq<Frag>)
    requires |frags| == 257 && frags[0] == Frag(0, 0, 1088) && frags[1] == Frag(0, 1088, 1536)
    requires forall k :: 2 <= k < 257 ==> frags[k] == Frag(k / 2, 1536 * (k % 2), 1536)
    ensures Handed(frags) && !Apart(frags[1], frags[256])
  {
    forall k | 0 < k < 257 ensures Follows(frags[k - 1], frags[k]) {
    }
  }
}
