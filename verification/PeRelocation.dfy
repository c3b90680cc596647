/** Base relocation: patching an image for the address it was loaded at. */
module PeRelocation {
  import opened Bytes

  const PE_RELOC_ABS := 0
  const PE_RELOC_REL32 := 3
  const PE_RELOC_REL64 := 10

  /** A word of `width` bytes (4 or 8) at offset `at` of the image. */
  datatype Site = Site(at: nat, width: nat)

  /** The sites a stretch of the table lists, and whether it was read to its end. */
  datatype Listing = Listing(sites: seq<Site>, ok: bool)

  // ----- the table -----

  function KindOf(entry: nat): nat { entry / 0x1000 }

  /** The site an entry names. */
  function SiteOf(entry: nat, page: nat): Site {
    Site(page + entry % 0x1000, if KindOf(entry) == PE_RELOC_REL64 then 8 else 4)
  }

  /** How many entries a block of `size` bytes holds. */
  function CountOf(size: nat): (n: nat)
    ensures size >= 8 ==> 8 + 2 * n <= size
  {
    if size < 8 then 0 else (size - 8) / 2
  }

  function Entries(table: seq<byte>, page: nat, at: nat, n: nat): Listing
    requires at + 2 * n <= |table|
    decreases n
  {
    if n == 0 then Listing([], true)
    else
      var entry := Dec(table[at..at + 2]);
      var kind := KindOf(entry);
      var rest := Entries(table, page, at + 2, n - 1);
      if kind == PE_RELOC_ABS then rest
      else if kind == PE_RELOC_REL64 || kind == PE_RELOC_REL32 then rest.(sites := [SiteOf(entry, page)] + rest.sites)
      else Listing([], false)
  }

  function PageAt(table: seq<byte>, cur: nat): nat
    requires cur + 8 <= |table|
  {
    Dec(table[cur..cur + 4])
  }

  function SizeAt(table: seq<byte>, cur: nat): nat
    requires cur + 8 <= |table|
  {
    Dec(table[cur + 4..cur + 8])
  }

  /** Every block that is read lies inside `table`. */
  predicate Readable(table: seq<byte>, cur: nat, end: nat)
    decreases end - cur
  {
    cur < end ==>
      && cur + 8 <= |table|
      && (SizeAt(table, cur) >= 8 ==>
        cur + SizeAt(table, cur) <= |table| && Readable(table, cur + SizeAt(table, cur), end))
  }

  function Blocks(table: seq<byte>, cur: nat, end: nat): Listing
    requires Readable(table, cur, end)
    decreases end - cur
  {
    if cur >= end then Listing([], true)
    else
      var size := SizeAt(table, cur);
      if size < 8 then Listing([], false)
      else
        var entries := Entries(table, PageAt(table, cur), cur + 8, CountOf(size));
        if !entries.ok then entries
        else
          var rest := Blocks(table, cur + size, end);
          Listing(entries.sites + rest.sites, rest.ok)
  }

  // ----- the patches -----

  /** `v + delta` as a word of `width` bytes; a negative `delta` wraps like an unsigned addition. */
  function AddWord(v: int, delta: int, width: nat): (r: nat)
    ensures r < Pow256(width)
  {
    (v + delta) % Pow256(width)
  }

  function SiteWord(image: seq<byte>, s: Site): nat
    requires s.at + s.width <= |image|
  {
    Dec(image[s.at..s.at + s.width])
  }

  function AddAt(image: seq<byte>, s: Site, delta: int): (r: seq<byte>)
    requires s.at + s.width <= |image|
    ensures |r| == |image|
  {
    Splice(image, s.at, Enc(AddWord(SiteWord(image, s), delta, s.width), s.width))
  }

  ghost predicate Inside(sites: seq<Site>, n: nat) {
    forall s :: s in sites ==> s.at + s.width <= n
  }

  predicate ApartSites(s: Site, t: Site) {
    s.at + s.width <= t.at || t.at + t.width <= s.at
  }

  ghost predicate Disjoint(sites: seq<Site>) {
    forall i, j :: 0 <= i < j < |sites| ==> ApartSites(sites[i], sites[j])
  }

  function Apply(image: seq<byte>, sites: seq<Site>, delta: int): (r: seq<byte>)
    requires Inside(sites, |image|)
    ensures |r| == |image|
    decreases |sites|
  {
    if sites == [] then image else Apply(AddAt(image, sites[0], delta), sites[1..], delta)
  }

  lemma ModAdd(v: int, a: int, b: int, m: nat)
    requires m > 0
    ensures ((v + a) % m + b) % m == (v + a + b) % m
  {
    var q := (v + a) / m;
    var r := (v + a) % m + b;
    DivMod(v + a + b, m, q + r / m, r % m);
  }

  lemma AddWordTwice(v: int, d: int, e: int, width: nat)
    ensures AddWord(AddWord(v, d, width), e, width) == AddWord(v, d + e, width)
  {
    ModAdd(v, d, e, Pow256(width));
  }

  lemma AddWordNothing(v: nat, width: nat)
    requires v < Pow256(width)
    ensures AddWord(v, 0, width) == v
  {
    DivMod(v, Pow256(width), 0, v);
  }

  /** The word after one patch. */
  lemma WordAdded(image: seq<byte>, s: Site, d: int)
    requires s.at + s.width <= |image|
    ensures SiteWord(AddAt(image, s, d), s) == AddWord(SiteWord(image, s), d, s.width)
  {
    var w := AddWord(SiteWord(image, s), d, s.width);
    hide AddWord, Enc, Dec;
    DecEnc(w, s.width);
    assert AddAt(image, s, d)[s.at..s.at + s.width] == Enc(w, s.width);
  }

  lemma AddTwice(image: seq<byte>, s: Site, d: int, e: int)
    requires s.at + s.width <= |image|
    ensures AddAt(AddAt(image, s, d), s, e) == AddAt(image, s, d + e)
  {
    WordAdded(image, s, d);
    AddWordTwice(SiteWord(image, s), d, e, s.width);
    hide AddWord, Enc, SiteWord;
  }

  lemma AddNothing(image: seq<byte>, s: Site)
    requires s.at + s.width <= |image|
    ensures AddAt(image, s, 0) == image
  {
    hide AddWord, Enc, Dec;
    EncDec(image[s.at..s.at + s.width]);
    AddWordNothing(SiteWord(image, s), s.width);
  }

  lemma Elsewhere(image: seq<byte>, s: Site, d: int, x: nat, y: nat)
    requires s.at + s.width <= |image| && x <= y <= |image| && (y <= s.at || s.at + s.width <= x)
    ensures AddAt(image, s, d)[x..y] == image[x..y]
  {
  }

  lemma AddCommutes(image: seq<byte>, s: Site, d: int, t: Site, e: int)
    requires s.at + s.width <= |image| && t.at + t.width <= |image| && ApartSites(s, t)
    ensures AddAt(AddAt(image, s, d), t, e) == AddAt(AddAt(image, t, e), s, d)
  {
    Elsewhere(image, s, d, t.at, t.at + t.width);
    Elsewhere(image, t, e, s.at, s.at + s.width);
    hide AddWord, Enc, Splice;
    var x := Enc(AddWord(SiteWord(image, s), d, s.width), s.width);
    var y := Enc(AddWord(SiteWord(image, t), e, t.width), t.width);
    SpliceCommutes(image, s.at, x, t.at, y);
  }

  lemma SpliceCommutes(image: seq<byte>, a: nat, x: seq<byte>, b: nat, y: seq<byte>)
    requires a + |x| <= |image| && b + |y| <= |image| && (a + |x| <= b || b + |y| <= a)
    ensures Splice(Splice(image, a, x), b, y) == Splice(Splice(image, b, y), a, x)
  {
  }

  lemma {:induction false} ApplyCommutes(image: seq<byte>, s: Site, d: int, sites: seq<Site>, e: int)
    requires s.at + s.width <= |image| && Inside(sites, |image|) && forall t :: t in sites ==> ApartSites(s, t)
    ensures Apply(AddAt(image, s, d), sites, e) == AddAt(Apply(image, sites, e), s, d)
    decreases |sites|
  {
    if sites != [] {
      hide AddAt;
      AddCommutes(image, s, d, sites[0], e);
      ApplyCommutes(AddAt(image, sites[0], e), s, d, sites[1..], e);
    }
  }

  /** Relocating by `d` and then by `e` is relocating by their sum. */
  lemma {:induction false} ApplyComposes(image: seq<byte>, sites: seq<Site>, d: int, e: int)
    requires Inside(sites, |image|) && Disjoint(sites)
    ensures Apply(Apply(image, sites, d), sites, e) == Apply(image, sites, d + e)
    decreases |sites|
  {
    if sites != [] {
      hide AddAt;
      var s, rest := sites[0], sites[1..];
      ApplyCommutes(AddAt(image, s, d), s, e, rest, d);
      AddTwice(image, s, d, e);
      ApplyComposes(AddAt(image, s, d + e), rest, d, e);
    }
  }

  lemma {:induction false} ApplyNothing(image: seq<byte>, sites: seq<Site>)
    requires Inside(sites, |image|)
    ensures Apply(image, sites, 0) == image
    decreases |sites|
  {
    if sites != [] {
      AddNothing(image, sites[0]);
      ApplyNothing(image, sites[1..]);
    }
  }

  /** Relocating by `-d` undoes relocating by `d`. */
  lemma ApplyUndone(image: seq<byte>, sites: seq<Site>, d: int)
    requires Inside(sites, |image|) && Disjoint(sites)
    ensures Apply(Apply(image, sites, d), sites, -d) == image
  {
    ApplyComposes(image, sites, d, -d);
    ApplyNothing(image, sites);
  }

  lemma {:induction false} ApplyKeeps(image: seq<byte>, sites: seq<Site>, d: int, x: nat, y: nat)
    requires Inside(sites, |image|) && x <= y <= |image| && forall t :: t in sites ==> y <= t.at || t.at + t.width <= x
    ensures Apply(image, sites, d)[x..y] == image[x..y]
    decreases |sites|
  {
    if sites != [] {
      Elsewhere(image, sites[0], d, x, y);
      hide AddAt;
      ApplyKeeps(AddAt(image, sites[0], d), sites[1..], d, x, y);
    }
  }

  /** The word at each listed site grows by exactly `d`, modulo its width. */
  lemma {:induction false} ApplyAdds(image: seq<byte>, sites: seq<Site>, d: int, i: nat)
    requires Inside(sites, |image|) && Disjoint(sites) && i < |sites|
    ensures sites[i].at + sites[i].width <= |image|
    ensures SiteWord(Apply(image, sites, d), sites[i]) == AddWord(SiteWord(image, sites[i]), d, sites[i].width)
    decreases |sites|
  {
    var s := sites[i];
    var first := AddAt(image, sites[0], d);
    if i == 0 {
      ApplyKeeps(first, sites[1..], d, s.at, s.at + s.width);
      WordAdded(image, s, d);
      hide AddAt, AddWord;
    } else {
      Elsewhere(image, sites[0], d, s.at, s.at + s.width);
      hide AddAt, AddWord;
      ApplyAdds(first, sites[1..], d, i - 1);
    }
  }

  // ----- the walk -----

  ghost predicate Off(sites: seq<Site>, lo: nat, hi: nat) {
    forall s :: s in sites ==> hi <= s.at || s.at + s.width <= lo
  }

  /** The images agree on `lo..hi`, where the table is. */
  ghost predicate SameTable(a: seq<byte>, b: seq<byte>, lo: nat, hi: nat) {
    lo <= hi <= |a| && |b| == |a| && a[lo..hi] == b[lo..hi]
  }

  lemma SameWord(a: seq<byte>, b: seq<byte>, lo: nat, hi: nat, s: Site)
    requires SameTable(a, b, lo, hi) && lo <= s.at && s.at + s.width <= hi
    ensures s.at + s.width <= |a| && |b| == |a| && SiteWord(a, s) == SiteWord(b, s)
  {
    SliceOfSlice(a, lo, hi - lo, s.at - lo, s.at + s.width - lo);
    SliceOfSlice(b, lo, hi - lo, s.at - lo, s.at + s.width - lo);
  }

  lemma {:induction false} SameEntries(a: seq<byte>, b: seq<byte>, page: nat, at: nat, n: nat, lo: nat, hi: nat)
    requires SameTable(a, b, lo, hi) && lo <= at && at + 2 * n <= hi
    ensures at + 2 * n <= |a| && |b| == |a| && Entries(a, page, at, n) == Entries(b, page, at, n)
    decreases n
  {
    if n > 0 {
      SameWord(a, b, lo, hi, Site(at, 2));
      SameEntries(a, b, page, at + 2, n - 1, lo, hi);
    } else {
      assert SameTable(a, b, lo, hi);
    }
  }

  /** Where the table's last block ends. */
  function Reach(table: seq<byte>, cur: nat, end: nat): nat
    requires Readable(table, cur, end)
    decreases end - cur
  {
    if cur >= end then cur
    else if SizeAt(table, cur) < 8 then cur + 8
    else Reach(table, cur + SizeAt(table, cur), end)
  }

  lemma {:induction false} ReachIsBehind(table: seq<byte>, cur: nat, end: nat)
    requires Readable(table, cur, end)
    ensures cur <= Reach(table, cur, end) && (cur < end ==> cur + 8 <= Reach(table, cur, end))
    decreases end - cur
  {
    if cur < end && SizeAt(table, cur) >= 8 { ReachIsBehind(table, cur + SizeAt(table, cur), end); }
  }

  /** What relocation requires of an image: the table lies in it, its sites do too, and none of
      them lies in the table. */
  ghost predicate Relocatable(image: seq<byte>, table: nat, size: nat) {
    && Readable(image, table, table + size) && Reach(image, table, table + size) <= |image|
    && var sites := Blocks(image, table, table + size).sites;
       Inside(sites, |image|) && Off(sites, table, Reach(image, table, table + size))
  }

  method ReadWord(image: array<byte>, at: nat, width: nat) returns (v: nat)
    requires at + width <= image.Length
    ensures v == SiteWord(image[..], Site(at, width))
  {
    assert image[at..at + width] == image[..][at..at + width];
    v := Dec(image[at..at + width]);
  }

  method AddTo(image: array<byte>, s: Site, delta: int)
    requires s.at + s.width <= image.Length
    modifies image
    ensures image[..] == AddAt(old(image[..]), s, delta)
  {
    var v := ReadWord(image, s.at, s.width);
    var w := Enc(AddWord(v, delta, s.width), s.width);
    forall i | 0 <= i < s.width { image[s.at + i] := w[i]; }
    assert image[..] == Splice(old(image[..]), s.at, w);
  }

  /** The walk has done `done` of `all`, and `rest` is what it still has to do. */
  ghost predicate Left(all: Listing, done: seq<Site>, rest: Listing) {
    done + rest.sites == all.sites && rest.ok == all.ok
  }

  /** `now` is `m` with the sites in `done` patched, and the table is as it was. */
  ghost predicate Patched(m: seq<byte>, now: seq<byte>, done: seq<Site>, delta: int, lo: nat, hi: nat) {
    Inside(done, |m|) && now == Apply(m, done, delta) && SameTable(now, m, lo, hi)
  }

  ghost predicate Safe(sites: seq<Site>, n: nat, lo: nat, hi: nat) {
    Inside(sites, n) && Off(sites, lo, hi)
  }

  lemma PatchOne(m: seq<byte>, now: seq<byte>, done: seq<Site>, s: Site, delta: int, lo: nat, hi: nat, all: seq<Site>)
    requires Patched(m, now, done, delta, lo, hi) && Safe(all, |m|, lo, hi) && s in all
    ensures s.at + s.width <= |now| && Patched(m, AddAt(now, s, delta), done + [s], delta, lo, hi)
  {
    hide AddAt;
    ApplyLast(m, done, s, delta);
    Elsewhere(now, s, delta, lo, hi);
  }

  lemma {:induction false} ApplyLast(image: seq<byte>, done: seq<Site>, s: Site, delta: int)
    requires Inside(done, |image|) && s.at + s.width <= |image|
    ensures Inside(done + [s], |image|) && Apply(image, done + [s], delta) == AddAt(Apply(image, done, delta), s, delta)
    decreases |done|
  {
    hide AddAt;
    if done == [] {
      assert [s][1..] == [] && done + [s] == [s];
    } else {
      assert (done + [s])[1..] == done[1..] + [s];
      ApplyLast(AddAt(image, done[0], delta), done[1..], s, delta);
    }
  }

  lemma {:induction false} ApplyAppend(image: seq<byte>, a: seq<Site>, b: seq<Site>, delta: int)
    requires Inside(a, |image|) && Inside(b, |image|)
    ensures Inside(a + b, |image|) && Apply(image, a + b, delta) == Apply(Apply(image, a, delta), b, delta)
    decreases |a|
  {
    hide AddAt;
    if a == [] {
      assert a + b == b;
    } else {
      assert (a + b)[1..] == a[1..] + b;
      ApplyAppend(AddAt(image, a[0], delta), a[1..], b, delta);
    }
  }

  // ----- one block -----

  /** One entry: it names a site, is padding, or is an error. */
  lemma EntryStep(m: seq<byte>, page: nat, at: nat, n: nat, done: seq<Site>, all: Listing) returns (rest: Listing)
    requires n > 0 && at + 2 * n <= |m| && Left(all, done, Entries(m, page, at, n))
    ensures rest == Entries(m, page, at + 2, n - 1)
    ensures var entry := SiteWord(m, Site(at, 2)); var kind := KindOf(entry);
      if kind == PE_RELOC_REL64 || kind == PE_RELOC_REL32 then
        Left(all, done + [SiteOf(entry, page)], rest) && SiteOf(entry, page) in all.sites
      else if kind == PE_RELOC_ABS then Left(all, done, rest)
      else all == Listing(done, false)
  {
    var entry := SiteWord(m, Site(at, 2));
    rest := Entries(m, page, at + 2, n - 1);
    hide KindOf, SiteOf;
    if KindOf(entry) == PE_RELOC_REL64 || KindOf(entry) == PE_RELOC_REL32 {
      assert Entries(m, page, at, n).sites == [SiteOf(entry, page)] + rest.sites;
      assert all.sites[|done|] == SiteOf(entry, page);
    }
  }

  lemma Finished(all: Listing, done: seq<Site>)
    requires Left(all, done, Listing([], true))
    ensures all == Listing(done, true)
  {
  }

  lemma Beginning(m: seq<byte>, all: Listing, delta: int, lo: nat, hi: nat)
    requires lo <= hi <= |m|
    ensures Left(all, [], all) && Patched(m, m, [], delta, lo, hi)
  {
  }

  lemma NoEntries(m: seq<byte>, page: nat, at: nat)
    requires at <= |m|
    ensures Entries(m, page, at, 0) == Listing([], true)
  {
  }

  /** The entries of one block, applied as they are read. */
  method ApplyEntries(image: array<byte>, page: nat, at: nat, n: nat, delta: int, ghost lo: nat, ghost hi: nat)
    returns (ok: bool, ghost done: seq<Site>)
    requires lo <= at && at + 2 * n <= hi <= image.Length
    requires Safe(Entries(image[..], page, at, n).sites, image.Length, lo, hi)
    modifies image
    ensures Entries(old(image[..]), page, at, n) == Listing(done, ok)
    ensures Patched(old(image[..]), image[..], done, delta, lo, hi)
  {
    hide *;
    ghost var m := image[..];
    ghost var all := Entries(m, page, at, n);
    done := [];
    Beginning(m, all, delta, lo, hi);
    var i := 0;
    ghost var pos, left, rest := at, n, all;
    while i < n
      invariant i <= n && |m| == image.Length && pos == at + 2 * i && left == n - i
      invariant Patched(m, image[..], done, delta, lo, hi)
      invariant rest == Entries(m, page, pos, left) && Left(all, done, rest)
    {
      TableKept(m, image[..], done, delta, lo, hi);
      SameWord(image[..], m, lo, hi, Site(pos, 2));
      var entry := ReadWord(image, at + 2 * i, 2);
      rest := EntryStep(m, page, pos, left, done, all);
      var kind := KindOf(entry);
      if kind == PE_RELOC_REL64 || kind == PE_RELOC_REL32 {
        var site := SiteOf(entry, page);
        PatchOne(m, image[..], done, site, delta, lo, hi, all.sites);
        AddTo(image, site, delta);
        done := done + [site];
      } else if kind != PE_RELOC_ABS {
        return false, done;
      }
      i := i + 1;
      pos, left := pos + 2, left - 1;
    }
    NoEntries(m, page, pos);
    Finished(all, done);
    ok := true;
  }

  lemma TableKept(m: seq<byte>, now: seq<byte>, done: seq<Site>, delta: int, lo: nat, hi: nat)
    requires Patched(m, now, done, delta, lo, hi)
    ensures SameTable(now, m, lo, hi) && |now| == |m| && lo <= hi <= |m|
  {
  }

  // ----- all blocks -----

  /** The image still shows the table as it was. */
  lemma BlockHeader(m: seq<byte>, now: seq<byte>, cur: nat, end: nat, lo: nat, hi: nat)
    requires cur < end && Readable(m, cur, end) && lo <= cur && Reach(m, cur, end) == hi && SameTable(now, m, lo, hi)
    ensures cur + 8 <= hi && SiteWord(now, Site(cur, 4)) == PageAt(m, cur)
    ensures SiteWord(now, Site(cur + 4, 4)) == SizeAt(m, cur)
    ensures SizeAt(m, cur) < 8 ==> Blocks(m, cur, end) == Listing([], false)
  {
    ReachIsBehind(m, cur, end);
    SameWord(now, m, lo, hi, Site(cur, 4));
    SameWord(now, m, lo, hi, Site(cur + 4, 4));
  }

  lemma NextBlock(m: seq<byte>, now: seq<byte>, cur: nat, end: nat, page: nat, size: nat, lo: nat, hi: nat)
    requires cur < end && Readable(m, cur, end) && lo <= cur && Reach(m, cur, end) == hi && SameTable(now, m, lo, hi)
    requires page == PageAt(m, cur) && size == SizeAt(m, cur) >= 8
    ensures cur + 8 + 2 * CountOf(size) <= cur + size <= hi
    ensures Readable(m, cur + size, end) && Reach(m, cur + size, end) == hi
    ensures Entries(now, page, cur + 8, CountOf(size)) == Entries(m, page, cur + 8, CountOf(size))
  {
    ReachIsBehind(m, cur + size, end);
    SameEntries(m, now, page, cur + 8, CountOf(size), lo, hi);
  }

  lemma BlockStep(m: seq<byte>, cur: nat, end: nat, page: nat, size: nat, done: seq<Site>, all: Listing, n: nat,
                  lo: nat, hi: nat) returns (es: Listing, rest: Listing)
    requires cur < end && Readable(m, cur, end) && page == PageAt(m, cur) && size == SizeAt(m, cur) >= 8
    requires cur + 8 + 2 * CountOf(size) <= |m| && Readable(m, cur + size, end)
    requires Left(all, done, Blocks(m, cur, end)) && Safe(all.sites, n, lo, hi)
    ensures es == Entries(m, page, cur + 8, CountOf(size)) && rest == Blocks(m, cur + size, end)
    ensures Safe(es.sites, n, lo, hi)
    ensures if es.ok then Left(all, done + es.sites, rest) else all == Listing(done + es.sites, false)
  {
    es, rest := Entries(m, page, cur + 8, CountOf(size)), Blocks(m, cur + size, end);
    hide Entries, Safe, CountOf;
    assert es.sites <= Blocks(m, cur, end).sites;
    NextSites(all.sites, done, es.sites, Blocks(m, cur, end).sites, n, lo, hi);
  }

  lemma NextSites(all: seq<Site>, done: seq<Site>, next: seq<Site>, rest: seq<Site>, n: nat, lo: nat, hi: nat)
    requires all == done + rest && next <= rest && Safe(all, n, lo, hi)
    ensures Safe(next, n, lo, hi)
  {
    forall s | s in next
      ensures s in all
    {
      var i :| 0 <= i < |next| && next[i] == s;
      assert rest[i] == s && all[|done| + i] == s;
    }
  }

  lemma PatchedMore(m: seq<byte>, mid: seq<byte>, now: seq<byte>, a: seq<Site>, b: seq<Site>, delta: int, lo: nat,
                    hi: nat)
    requires Patched(m, mid, a, delta, lo, hi) && Patched(mid, now, b, delta, lo, hi)
    ensures Patched(m, now, a + b, delta, lo, hi)
  {
    ApplyAppend(m, a, b, delta);
  }

  lemma NoBlocks(m: seq<byte>, cur: nat, end: nat)
    requires cur >= end
    ensures Blocks(m, cur, end) == Listing([], true)
  {
  }

  lemma TableFacts(m: seq<byte>, table: nat, size: nat) returns (all: Listing, hi: nat)
    requires Relocatable(m, table, size)
    ensures Readable(m, table, table + size) && all == Blocks(m, table, table + size)
    ensures hi == Reach(m, table, table + size)
    ensures table <= hi <= |m| && Safe(all.sites, |m|, table, hi)
  {
    all, hi := Blocks(m, table, table + size), Reach(m, table, table + size);
    ReachIsBehind(m, table, table + size);
  }

  lemma BadBlock(all: Listing, done: seq<Site>)
    requires Left(all, done, Listing([], false))
    ensures all == Listing(done, false)
  {
  }

  /** The blocks of the table, applied as they are read. */
  method ApplyBlocks(image: array<byte>, table: nat, size: nat, delta: int, ghost all: Listing, ghost hi: nat)
    returns (ok: bool, ghost done: seq<Site>)
    requires Readable(image[..], table, table + size) && Reach(image[..], table, table + size) == hi
    requires all == Blocks(image[..], table, table + size) && Safe(all.sites, image.Length, table, hi)
    requires table <= hi <= image.Length
    modifies image
    ensures all == Listing(done, ok) && Patched(old(image[..]), image[..], done, delta, table, hi)
  {
    hide *;
    ghost var m := image[..];
    Beginning(m, all, delta, table, hi);
    ghost var rest := all;
    done := [];
    var cur, end := table, table + size;
    while cur < end
      invariant table <= cur && Readable(m, cur, end) && Reach(m, cur, end) == hi <= |m| == image.Length
      invariant Patched(m, image[..], done, delta, table, hi)
      invariant rest == Blocks(m, cur, end) && Left(all, done, rest)
      decreases end - cur
    {
      ghost var mid := image[..];
      TableKept(m, mid, done, delta, table, hi);
      BlockHeader(m, mid, cur, end, table, hi);
      var page := ReadWord(image, cur, 4);
      var blockSize := ReadWord(image, cur + 4, 4);
      if blockSize < 8 {
        BadBlock(all, done);
        return false, done;
      }
      NextBlock(m, mid, cur, end, page, blockSize, table, hi);
      ghost var es;
      es, rest := BlockStep(m, cur, end, page, blockSize, done, all, |m|, table, hi);
      ghost var patched;
      var good;
      good, patched := ApplyEntries(image, page, cur + 8, CountOf(blockSize), delta, table, hi);
      PatchedMore(m, mid, image[..], done, patched, delta, table, hi);
      done := done + patched;
      if !good { return false, done; }
      cur := cur + blockSize;
    }
    NoBlocks(m, cur, end);
    Finished(all, done);
    ok := true;
  }

  /** `ResolvePERelocations`: with a table and a non-zero delta, every listed site is patched, up
      to the first bad block or entry, which is reported. */
  method ResolveRelocations(image: array<byte>, table: nat, size: nat, delta: int) returns (ok: bool)
    requires table != 0 && size != 0 && delta != 0 ==> Relocatable(image[..], table, size)
    modifies image
    ensures table == 0 || size == 0 || delta == 0 ==> ok && image[..] == old(image[..])
    ensures table != 0 && size != 0 && delta != 0 ==>
      var l := Blocks(old(image[..]), table, table + size);
      ok == l.ok && image[..] == Apply(old(image[..]), l.sites, delta)
  {
    if table == 0 || size == 0 { return true; }
    if delta == 0 { return true; }
    hide Blocks, Reach, Readable, Apply;
    ghost var m := image[..];
    ghost var all, hi := TableFacts(m, table, size);
    ghost var done;
    ok, done := ApplyBlocks(image, table, size, delta, all, hi);
  }

  /** After a successful run, a second one with the opposite delta gives the image back. */
  lemma RelocationUndone(image: seq<byte>, table: nat, size: nat, delta: int)
    requires Relocatable(image, table, size) && Disjoint(Blocks(image, table, table + size).sites)
    ensures var l := Blocks(image, table, table + size);
      && Readable(Apply(image, l.sites, delta), table, table + size)
      && Blocks(Apply(image, l.sites, delta), table, table + size) == l
      && Apply(Apply(image, l.sites, delta), l.sites, -delta) == image
  {
    var all, hi := TableFacts(image, table, size);
    ApplyKeeps(image, all.sites, delta, table, hi);
    SameBlocks(image, Apply(image, all.sites, delta), table, table + size, table, hi);
    ApplyUndone(image, all.sites, delta);
  }

  /** The bytes of the table decide what the walk lists. */
  lemma {:induction false} SameBlocks(a: seq<byte>, b: seq<byte>, cur: nat, end: nat, lo: nat, hi: nat)
    requires Readable(a, cur, end) && lo <= cur && Reach(a, cur, end) <= hi && SameTable(a, b, lo, hi)
    ensures Readable(b, cur, end) && Blocks(a, cur, end) == Blocks(b, cur, end)
    decreases end - cur
  {
    if cur < end {
      ReachIsBehind(a, cur, end);
      SameWord(a, b, lo, hi, Site(cur, 4));
      SameWord(a, b, lo, hi, Site(cur + 4, 4));
      hide SameTable;
      var size := SizeAt(a, cur);
      if size >= 8 {
        ReachIsBehind(a, cur + size, end);
        SameEntries(a, b, PageAt(a, cur), cur + 8, CountOf(size), lo, hi);
        hide Entries, Dec, CountOf;
        SameBlocks(a, b, cur + size, end, lo, hi);
      }
    }
  }
}
