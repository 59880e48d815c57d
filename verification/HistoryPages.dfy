/** The values the progressive history cache is made of, and the sums its running
    totals must agree with. */
module HistoryPages {
  import opened Prelude

  const MAX_HISTORY_PAGE_ROWS := 4096
  /** How many accepted pages the digest window remembers. */
  const WINDOW := 64

  type Cursor = Bytes
  type Digest = Bytes
  type AnchorId = U64

  datatype PageId = PageId(cursor: Cursor, pageSeq: U64)

  /** One history response as it arrives from the server. */
  datatype Page = Page(id: PageId, next: Option<Cursor>, rows: U32, payload: Bytes)

  datatype CachedPage = CachedPage(
    next: Option<Cursor>,
    declaredRows: nat,
    payload: Bytes,
    materializedRows: nat,
    pinCount: nat)

  datatype ConsumedPage = ConsumedPage(
    id: PageId,
    next: Option<Cursor>,
    declaredRows: nat,
    digest: Digest,
    accountedBytes: nat)

  type Pages = map<PageId, CachedPage>
  type Anchors = map<AnchorId, set<PageId>>

  // ---------------------------------------------------------------- sums over pages

  function PayloadBytes(p: CachedPage): nat { |p.payload| }

  function ProjectedRows(p: CachedPage): nat { p.materializedRows }

  function PinnedPayload(p: CachedPage): nat { if p.pinCount > 0 then |p.payload| else 0 }

  function PinnedRows(p: CachedPage): nat { if p.pinCount > 0 then p.materializedRows else 0 }

  /** The total weight of a set of cached pages. */
  ghost function Sum(pages: Pages, w: CachedPage -> nat): nat
    decreases |pages|
  {
    if pages == map[] then 0
    else
      var id :| id in pages;
      w(pages[id]) + Sum(pages - {id}, w)
  }

  /** The sum does not depend on the order in which pages are visited. */
  lemma {:induction false} SumRemove(pages: Pages, id: PageId, w: CachedPage -> nat)
    requires id in pages
    ensures Sum(pages, w) == w(pages[id]) + Sum(pages - {id}, w)
    decreases |pages|
  {
    var first :| first in pages && Sum(pages, w) == w(pages[first]) + Sum(pages - {first}, w);
    if first != id {
      SumRemove(pages - {first}, id, w);
      SumRemove(pages - {id}, first, w);
      assert pages - {first} - {id} == pages - {id} - {first};
    }
  }

  lemma SumUpdate(pages: Pages, id: PageId, p: CachedPage, w: CachedPage -> nat)
    ensures Sum(pages[id := p], w) == w(p) + Sum(pages - {id}, w)
    ensures id in pages ==> Sum(pages, w) == w(pages[id]) + Sum(pages - {id}, w)
    ensures id !in pages ==> pages - {id} == pages
  {
    SumRemove(pages[id := p], id, w);
    assert pages[id := p] - {id} == pages - {id};
    if id in pages {
      SumRemove(pages, id, w);
    }
  }

  /** A pointwise smaller weight gives a smaller sum. */
  lemma {:induction false} SumCompare(pages: Pages, w: CachedPage -> nat, v: CachedPage -> nat)
    requires forall id | id in pages :: w(pages[id]) <= v(pages[id])
    ensures Sum(pages, w) <= Sum(pages, v)
    decreases |pages|
  {
    if pages != map[] {
      var id :| id in pages;
      SumRemove(pages, id, w);
      SumRemove(pages, id, v);
      SumCompare(pages - {id}, w, v);
    }
  }

  // ---------------------------------------------------------------- anchors

  /** The anchors that protect one page. */
  ghost function Holders(anchors: Anchors, id: PageId): set<AnchorId> {
    set a | a in anchors && id in anchors[a]
  }

  lemma HoldersInsert(anchors: Anchors, a: AnchorId, ids: set<PageId>, id: PageId)
    requires a !in anchors
    ensures |Holders(anchors[a := ids], id)| == |Holders(anchors, id)| + if id in ids then 1 else 0
  {
    if id in ids {
      assert Holders(anchors[a := ids], id) == Holders(anchors, id) + {a};
    } else {
      assert Holders(anchors[a := ids], id) == Holders(anchors, id);
    }
  }

  lemma HoldersRemove(anchors: Anchors, a: AnchorId, id: PageId)
    requires a in anchors
    ensures |Holders(anchors, id)| == |Holders(anchors - {a}, id)| + if id in anchors[a] then 1 else 0
  {
    assert (anchors - {a})[a := anchors[a]] == anchors;
    HoldersInsert(anchors - {a}, a, anchors[a], id);
  }

  // ---------------------------------------------------------------- the accepted-page log

  /** What the digest window keeps of an accepted page. */
  function Consumed(p: Page, digest: Bytes -> Digest): ConsumedPage {
    ConsumedPage(p.id, p.next, p.rows, digest(p.payload),
                 32 + |p.id.cursor| + (if p.next.Some? then |p.next.value| else 0) + 12)
  }

  /** The window accounts for every byte it holds of a page: digest, cursors, sequence and rows. */
  lemma ConsumedBytes(p: Page, digest: Bytes -> Digest)
    requires |digest(p.payload)| == 32
    ensures var c := Consumed(p, digest);
            c.accountedBytes == |c.digest| + |c.id.cursor| + (match c.next case None => 0 case Some(n) => |n|) + 8 + 4
  {
  }

  /** The most recently accepted pages, at most `WINDOW` of them. */
  ghost function Recent(log: seq<Page>): seq<Page> {
    log[SatSub(|log|, WINDOW)..]
  }

  ghost function Digests(log: seq<Page>, digest: Bytes -> Digest): seq<ConsumedPage> {
    seq(|log|, i requires 0 <= i < |log| => Consumed(log[i], digest))
  }

  ghost function AccountedBytes(consumed: seq<ConsumedPage>): nat {
    if consumed == [] then 0 else consumed[0].accountedBytes + AccountedBytes(consumed[1..])
  }

  lemma {:induction false} AccountedAppend(consumed: seq<ConsumedPage>, c: ConsumedPage)
    ensures AccountedBytes(consumed + [c]) == AccountedBytes(consumed) + c.accountedBytes
  {
    if consumed == [] {
      assert consumed + [c] == [c];
    } else {
      AccountedAppend(consumed[1..], c);
      assert (consumed + [c])[1..] == consumed[1..] + [c];
    }
  }

  /** Where the last accepted page with this identity sits in the log, or -1. */
  ghost function LastWith(log: seq<Page>, id: PageId): (k: int)
    ensures -1 <= k < |log|
    ensures k >= 0 ==> log[k].id == id
    ensures forall j | k < j < |log| :: log[j].id != id
  {
    if log == [] then -1
    else if log[|log| - 1].id == id then |log| - 1
    else LastWith(log[..|log| - 1], id)
  }

  lemma LastWithUnique(log: seq<Page>, id: PageId, k: int)
    requires 0 <= k < |log| && log[k].id == id
    requires forall j | k < j < |log| :: log[j].id != id
    ensures LastWith(log, id) == k
  {
  }

  ghost predicate DistinctIds(log: seq<Page>) {
    forall i, j | 0 <= i < j < |log| :: log[i].id != log[j].id
  }

  ghost predicate Distinct(ids: seq<PageId>) {
    forall i, j | 0 <= i < j < |ids| :: ids[i] != ids[j]
  }

  /** `sub` is `ids` with some entries left out, the others in the same order. */
  ghost predicate Subsequence(sub: seq<PageId>, ids: seq<PageId>)
    decreases |ids|
  {
    sub == [] ||
    (ids != [] &&
     ((sub[|sub| - 1] == ids[|ids| - 1] && Subsequence(sub[..|sub| - 1], ids[..|ids| - 1])) ||
      Subsequence(sub, ids[..|ids| - 1])))
  }

  lemma SubsequenceKeep(sub: seq<PageId>, ids: seq<PageId>, id: PageId)
    requires Subsequence(sub, ids)
    ensures Subsequence(sub + [id], ids + [id])
  {
    assert (sub + [id])[..|sub|] == sub && (ids + [id])[..|ids|] == ids;
  }

  lemma SubsequenceSkip(sub: seq<PageId>, ids: seq<PageId>, id: PageId)
    requires Subsequence(sub, ids)
    ensures Subsequence(sub, ids + [id])
  {
    assert (ids + [id])[..|ids|] == ids;
  }

  lemma {:induction false} SubsequenceSelf(ids: seq<PageId>)
    ensures Subsequence(ids, ids)
  {
    if ids != [] {
      SubsequenceSelf(ids[..|ids| - 1]);
    }
  }

  /** Positions in the log rise along the queue. */
  ghost predicate Rising(ids: seq<PageId>, log: seq<Page>) {
    forall i, j | 0 <= i < j < |ids| :: LastWith(log, ids[i]) < LastWith(log, ids[j])
  }

  lemma RisingDistinct(ids: seq<PageId>, log: seq<Page>)
    requires Rising(ids, log)
    ensures Distinct(ids)
  {
    hide LastWith;
    forall i, j | 0 <= i < j < |ids|
      ensures ids[i] != ids[j]
    {
      assert LastWith(log, ids[i]) < LastWith(log, ids[j]);
    }
  }

  lemma {:induction false} SubsequenceRises(sub: seq<PageId>, ids: seq<PageId>, log: seq<Page>)
    requires Subsequence(sub, ids) && Rising(ids, log)
    ensures Rising(sub, log)
    ensures forall id | id in sub :: id in ids
    decreases |ids|
  {
    hide LastWith;
    if sub != [] {
      var k, n := |sub| - 1, |ids| - 1;
      if sub[k] == ids[n] && Subsequence(sub[..k], ids[..n]) {
        SubsequenceRises(sub[..k], ids[..n], log);
        forall i | 0 <= i < k
          ensures LastWith(log, sub[i]) < LastWith(log, sub[k]) && sub[i] in ids
        {
          assert sub[..k][i] in ids[..n];
        }
        forall i, j | 0 <= i < j < |sub|
          ensures LastWith(log, sub[i]) < LastWith(log, sub[j])
        {
          assert j < k ==> sub[..k][i] == sub[i] && sub[..k][j] == sub[j];
        }
      } else {
        SubsequenceRises(sub, ids[..n], log);
      }
    }
  }
}
