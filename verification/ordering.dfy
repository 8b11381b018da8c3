/** The `sort({createdAt: -1})` of the book listings: newest first. */
module Ordering {
  import opened Model

  ghost predicate NewestFirst(bs: seq<Book>) {
    forall i, j :: 0 <= i < j < |bs| ==> bs[i].createdAt >= bs[j].createdAt
  }

  /** Places `b` in front of the first book that is not newer than it. */
  function InsertNewest(b: Book, bs: seq<Book>): (r: seq<Book>)
    requires NewestFirst(bs)
    ensures NewestFirst(r)
    ensures multiset(r) == multiset(bs) + multiset{b}
    ensures |r| == |bs| + 1
    ensures r[0] == b || (|bs| > 0 && r[0] == bs[0])
  {
    if |bs| == 0 then [b]
    else if b.createdAt >= bs[0].createdAt then [b] + bs
    else
      assert bs == [bs[0]] + bs[1..];
      [bs[0]] + InsertNewest(b, bs[1..])
  }

  /** Orders books newest first. Books with equal timestamps, whose relative
      order the database leaves open, come out in one fixed order. */
  function SortNewest(bs: seq<Book>): (r: seq<Book>)
    ensures NewestFirst(r)
    ensures multiset(r) == multiset(bs)
    ensures |r| == |bs|
  {
    if |bs| == 0 then []
    else
      assert bs == [bs[0]] + bs[1..];
      InsertNewest(bs[0], SortNewest(bs[1..]))
  }
}
