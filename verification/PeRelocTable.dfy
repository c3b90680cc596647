/** A relocation table built as the PE format prescribes is read back site for site. */
module PeRelocTable {
  import opened Bytes
  import opened PeRelocation

  /** An entry: padding, or a word of 8 or 4 bytes at an offset into the page. */
  datatype Entry = Absolute(off: nat) | Dir64(off: nat) | HighLow(off: nat)

  datatype Block = Block(page: nat, entries: seq<Entry>)

  predicate ValidEntry(e: Entry) { e.off < 0x1000 }

  ghost predicate ValidBlock(b: Block) {
    && b.page < 0x1_0000_0000 && 8 + 2 * |b.entries| < 0x1_0000_0000
    && forall i :: 0 <= i < |b.entries| ==> ValidEntry(b.entries[i])
  }

  /** The types of the PE format: 0 is padding, 10 a 64-bit word, 3 a 32-bit one. */
  function Code(e: Entry): nat {
    match e
    case Absolute(off) => off
    case Dir64(off) => 0xA000 + off
    case HighLow(off) => 0x3000 + off
  }

  function EncodeEntries(es: seq<Entry>): (r: seq<byte>)
    ensures |r| == 2 * |es|
  {
    if es == [] then [] else Enc(Code(es[0]), 2) + EncodeEntries(es[1..])
  }

  function EncodeBlock(b: Block): (r: seq<byte>)
    ensures |r| == 8 + 2 * |b.entries|
  {
    Enc(b.page, 4) + Enc(8 + 2 * |b.entries|, 4) + EncodeEntries(b.entries)
  }

  function Encode(bs: seq<Block>): seq<byte> {
    if bs == [] then [] else EncodeBlock(bs[0]) + Encode(bs[1..])
  }

  /** The word an entry names, if any. */
  function SitesOfOne(page: nat, e: Entry): seq<Site> {
    match e
    case Absolute(_) => []
    case Dir64(off) => [Site(page + off, 8)]
    case HighLow(off) => [Site(page + off, 4)]
  }

  /** The words the entries of a page name. */
  function EntrySites(page: nat, es: seq<Entry>): seq<Site> {
    if es == [] then []
    else SitesOfOne(page, es[0]) + EntrySites(page, es[1..])
  }

  function BlockSites(bs: seq<Block>): seq<Site> {
    if bs == [] then [] else EntrySites(bs[0].page, bs[0].entries) + BlockSites(bs[1..])
  }

  /** What the walk makes of an entry, by its four type bits. */
  lemma EntryTypes(table: seq<byte>, page: nat, at: nat, n: nat, kind: nat, off: nat)
    requires n > 0 && at + 2 * n <= |table| && kind < 16 && off < 0x1000
    requires table[at..at + 2] == Enc(0x1000 * kind + off, 2)
    ensures var rest := Entries(table, page, at + 2, n - 1);
      Entries(table, page, at, n) ==
        if kind == 10 then Listing([Site(page + off, 8)] + rest.sites, rest.ok)
        else if kind == 3 then Listing([Site(page + off, 4)] + rest.sites, rest.ok)
        else if kind == 0 then rest
        else Listing([], false)
  {
    assert Pow256(2) == 0x1_0000;
    DecEnc(0x1000 * kind + off, 2);
    hide Dec, Enc;
  }

  lemma EntryDecodes(table: seq<byte>, at: nat, e: Entry, page: nat)
    requires ValidEntry(e) && at + 2 <= |table| && table[at..at + 2] == Enc(Code(e), 2)
    ensures var entry := Dec(table[at..at + 2]);
      && KindOf(entry) == Code(e) / 0x1000
      && (!e.Absolute? ==> SiteOf(entry, page) == Site(page + e.off, if e.Dir64? then 8 else 4))
  {
    assert Pow256(2) == 0x1_0000;
    DecEnc(Code(e), 2);
  }

  lemma OneEntryRead(table: seq<byte>, page: nat, at: nat, n: nat, e: Entry, rest: Listing)
    requires n > 0 && at + 2 * n <= |table| && ValidEntry(e) && table[at..at + 2] == Enc(Code(e), 2)
    requires rest == Entries(table, page, at + 2, n - 1)
    ensures Entries(table, page, at, n) == rest.(sites := SitesOfOne(page, e) + rest.sites)
  {
    EntryDecodes(table, at, e, page);
    hide KindOf, SiteOf, Dec, Enc;
  }

  lemma EncodedHead(pre: seq<byte>, es: seq<Entry>, post: seq<byte>)
    requires es != []
    ensures var table := pre + EncodeEntries(es) + post; var w := Enc(Code(es[0]), 2);
      && table == pre + w + EncodeEntries(es[1..]) + post && |table| >= |pre| + 2 * |es|
      && table[|pre|..|pre| + 2] == w && |pre + w| == |pre| + 2
  {
    hide Enc, Code;
    var w := Enc(Code(es[0]), 2);
    Assoc(pre, w, EncodeEntries(es[1..]));
  }

  lemma EntrySitesHead(page: nat, es: seq<Entry>)
    requires es != []
    ensures EntrySites(page, es) == SitesOfOne(page, es[0]) + EntrySites(page, es[1..])
  {
  }

  lemma {:induction false} EntriesRead(pre: seq<byte>, es: seq<Entry>, post: seq<byte>, page: nat)
    requires forall i :: 0 <= i < |es| ==> ValidEntry(es[i])
    ensures Entries(pre + EncodeEntries(es) + post, page, |pre|, |es|) == Listing(EntrySites(page, es), true)
    decreases |es|
  {
    if es != [] {
      hide *;
      EncodedHead(pre, es, post);
      EntriesRead(pre + Enc(Code(es[0]), 2), es[1..], post, page);
      EntrySitesHead(page, es);
      OneEntryRead(pre + EncodeEntries(es) + post, page, |pre|, |es|, es[0], Listing(EntrySites(page, es[1..]), true));
    }
  }

  lemma HeaderRead(pre: seq<byte>, b: Block, post: seq<byte>)
    requires ValidBlock(b)
    ensures var table := pre + EncodeBlock(b) + post;
      PageAt(table, |pre|) == b.page && SizeAt(table, |pre|) == 8 + 2 * |b.entries|
  {
    var table := pre + EncodeBlock(b) + post;
    Pow256Values();
    hide Enc, Dec, EncodeEntries, Pow256;
    assert table[|pre|..|pre| + 4] == Enc(b.page, 4);
    assert table[|pre| + 4..|pre| + 8] == Enc(8 + 2 * |b.entries|, 4);
    DecEnc(b.page, 4);
    DecEnc(8 + 2 * |b.entries|, 4);
  }

  lemma BlocksHead(table: seq<byte>, cur: nat, end: nat, page: nat, size: nat, sites: seq<Site>)
    requires cur < end && cur + 8 <= |table| && PageAt(table, cur) == page && SizeAt(table, cur) == size >= 8
    requires cur + size <= |table| && Readable(table, cur + size, end)
    requires Entries(table, page, cur + 8, CountOf(size)) == Listing(sites, true)
    ensures Readable(table, cur, end)
    ensures Blocks(table, cur, end) == Listing(sites + Blocks(table, cur + size, end).sites, Blocks(table,
        cur + size, end).ok)
  {
    hide Entries, PageAt, SizeAt, CountOf;
  }

  lemma EncodedBlock(pre: seq<byte>, bs: seq<Block>) returns (mid: seq<byte>, table: seq<byte>, size: nat)
    requires bs != []
    ensures mid == pre + EncodeBlock(bs[0]) && table == pre + Encode(bs) == mid + Encode(bs[1..])
    ensures size == 8 + 2 * |bs[0].entries| && |mid| == |pre| + size && |mid| <= |table|
    ensures BlockSites(bs) == EntrySites(bs[0].page, bs[0].entries) + BlockSites(bs[1..])
  {
    hide EncodeBlock, EntrySites;
    mid, table, size := pre + EncodeBlock(bs[0]), pre + Encode(bs), 8 + 2 * |bs[0].entries|;
    Assoc(pre, EncodeBlock(bs[0]), Encode(bs[1..]));
  }

  lemma FirstBlockRead(pre: seq<byte>, b: Block, rest: seq<byte>, table: seq<byte>, size: nat)
    requires ValidBlock(b) && table == pre + EncodeBlock(b) + rest && size == 8 + 2 * |b.entries|
    ensures |pre| + 8 <= |pre| + size <= |table| && PageAt(table, |pre|) == b.page && SizeAt(table, |pre|) == size
    ensures |pre| + 8 + 2 * CountOf(size) <= |table|
    ensures Entries(table, b.page, |pre| + 8, CountOf(size)) == Listing(EntrySites(b.page, b.entries), true)
  {
    hide EncodeBlock, EntrySites, PageAt, SizeAt, CountOf;
    HeaderRead(pre, b, rest);
    BlockRead(pre, b, rest);
  }

  lemma EmptyTable(pre: seq<byte>)
    ensures pre + Encode([]) == pre && BlockSites([]) == []
    ensures Readable(pre, |pre|, |pre|) && Blocks(pre, |pre|, |pre|) == Listing([], true)
  {
  }

  lemma TailIsValid(bs: seq<Block>)
    requires bs != [] && forall i :: 0 <= i < |bs| ==> ValidBlock(bs[i])
    ensures ValidBlock(bs[0]) && forall i :: 0 <= i < |bs[1..]| ==> ValidBlock(bs[1..][i])
  {
  }

  /** The walk over an encoded table lists exactly the sites that were encoded, in order. */
  lemma {:induction false} TableReadBack(pre: seq<byte>, bs: seq<Block>)
    requires forall i :: 0 <= i < |bs| ==> ValidBlock(bs[i])
    ensures var table := pre + Encode(bs);
      Readable(table, |pre|, |table|) && Blocks(table, |pre|, |table|) == Listing(BlockSites(bs), true)
    decreases |bs|
  {
    hide *;
    if bs == [] {
      EmptyTable(pre);
    } else {
      TailIsValid(bs);
      var mid, table, size := EncodedBlock(pre, bs);
      FirstBlockRead(pre, bs[0], Encode(bs[1..]), table, size);
      TableReadBack(mid, bs[1..]);
      BlocksHead(table, |pre|, |table|, bs[0].page, size, EntrySites(bs[0].page, bs[0].entries));
    }
  }

  lemma BlockRead(pre: seq<byte>, b: Block, post: seq<byte>)
    requires ValidBlock(b)
    ensures Entries(pre + EncodeBlock(b) + post, b.page, |pre| + 8, CountOf(8 + 2 * |b.entries|)) ==
            Listing(EntrySites(b.page, b.entries), true)
  {
    var head := Enc(b.page, 4) + Enc(8 + 2 * |b.entries|, 4);
    EntriesRead(pre + head, b.entries, post, b.page);
    assert pre + EncodeBlock(b) + post == pre + head + EncodeEntries(b.entries) + post;
  }
}
