/** The documents the backend keeps in its database, as immutable values:
    users and books in the database's natural (insertion) order, and the
    counter that stands in for the database-assigned document ids. */
module Model {
  import opened Wrappers

  /** A document id. Both collections draw fresh ids from `Store.nextId`. */
  type Id = nat

  /** A stored user. `password` is the password as submitted: the user
      schema's hashing is not part of this model, and the comparison against
      a candidate (hashing included) is the `matches` parameter. */
  datatype User = User(id: Id, email: string, username: string, password: string, profileImage: string)

  /** A user as it may leave the server: every field except the password. */
  datatype PublicUser = PublicUser(id: Id, username: string, email: string, profileImage: string)

  /** A stored book; `owner` references a user and `createdAt` is the
      creation timestamp the listings sort on. */
  datatype Book = Book(id: Id, title: string, caption: string, rating: int, image: string, owner: Id, createdAt: nat)

  datatype Store = Store(users: seq<User>, books: seq<Book>, nextId: nat)

  /** Drops the password field. */
  function Public(u: User): PublicUser {
    PublicUser(u.id, u.username, u.email, u.profileImage)
  }

  /** The first element satisfying `p`, in natural order: a `findOne` query. */
  function FindFirst<T>(xs: seq<T>, p: T -> bool): (r: Option<T>)
    ensures r.Some? ==> exists i :: 0 <= i < |xs| && xs[i] == r.value && p(xs[i]) &&
                                     forall j :: 0 <= j < i ==> !p(xs[j])
    ensures r.None? <==> forall x :: x in xs ==> !p(x)
  {
    if |xs| == 0 then None
    else if p(xs[0]) then Some(xs[0])
    else
      var r := FindFirst(xs[1..], p);
      assert forall x :: x in xs ==> x == xs[0] || x in xs[1..];
      if r.Some? then
        assert exists i :: 0 < i < |xs| && xs[i] == r.value && p(xs[i]) &&
                           forall j :: 0 <= j < i ==> !p(xs[j]) by {
          var k :| 0 <= k < |xs[1..]| && xs[1..][k] == r.value && p(xs[1..][k]) &&
                   forall j :: 0 <= j < k ==> !p(xs[1..][j]);
          assert forall j :: 1 <= j < k + 1 ==> xs[j] == xs[1..][j - 1];
        }
        r
      else r
  }

  /** `a` is `b` with some elements left out, the rest in their order. */
  ghost predicate SubsequenceOf<T>(a: seq<T>, b: seq<T>)
    decreases |b|
  {
    || |a| == 0
    || (&& |b| > 0
        && ((a[0] == b[0] && SubsequenceOf(a[1..], b[1..])) || SubsequenceOf(a, b[1..])))
  }

  /** The elements satisfying `p`, in their original order. */
  function Filter<T(!new)>(xs: seq<T>, p: T -> bool): (r: seq<T>)
    ensures forall x :: multiset(r)[x] == if p(x) then multiset(xs)[x] else 0
    ensures |r| <= |xs|
  {
    if |xs| == 0 then []
    else
      var rest := Filter(xs[1..], p);
      assert xs == [xs[0]] + xs[1..];
      if p(xs[0]) then [xs[0]] + rest else rest
  }

  /** A filter keeps the elements it keeps in their original order. */
  lemma {:induction false} FilterInOrder<T(!new)>(xs: seq<T>, p: T -> bool)
    ensures SubsequenceOf(Filter(xs, p), xs)
    decreases |xs|
  {
    if |xs| > 0 {
      FilterInOrder(xs[1..], p);
      if p(xs[0]) {
        assert Filter(xs, p)[1..] == Filter(xs[1..], p);
      }
    }
  }

  /** The test `deleteOne` applies to the books it keeps. */
  function IdIsNot(id: Id): Book -> bool {
    (b: Book) => b.id != id
  }

  /** The filter `find({user})` applies. */
  function OwnedBy(owner: Id): Book -> bool {
    (b: Book) => b.owner == owner
  }

  ghost predicate DistinctIds(bs: seq<Book>) {
    forall i, j :: 0 <= i < j < |bs| ==> bs[i].id != bs[j].id
  }

  /** A filter that keeps everything is the identity. */
  lemma {:induction false} FilterKeepsAll<T(!new)>(xs: seq<T>, p: T -> bool)
    requires forall i :: 0 <= i < |xs| ==> p(xs[i])
    ensures Filter(xs, p) == xs
    decreases |xs|
  {
    if |xs| > 0 {
      FilterKeepsAll(xs[1..], p);
    }
  }

  /** Removing an id held by exactly one book shortens the books by one. */
  lemma {:induction false} FilterDropsUnique(xs: seq<Book>, id: Id, k: nat)
    requires k < |xs| && xs[k].id == id
    requires forall j :: 0 <= j < |xs| && j != k ==> xs[j].id != id
    ensures |Filter(xs, IdIsNot(id))| == |xs| - 1
    decreases |xs|
  {
    if k == 0 {
      FilterKeepsAll(xs[1..], IdIsNot(id));
    } else {
      FilterDropsUnique(xs[1..], id, k - 1);
    }
  }

  /** Filtering keeps ids distinct: it only ever drops books. */
  lemma {:induction false} FilterKeepsDistinct(xs: seq<Book>, p: Book -> bool)
    requires DistinctIds(xs)
    ensures DistinctIds(Filter(xs, p))
    decreases |xs|
  {
    if |xs| > 0 {
      var rest := Filter(xs[1..], p);
      FilterKeepsDistinct(xs[1..], p);
      if p(xs[0]) {
        forall j | 0 <= j < |rest| ensures xs[0].id != rest[j].id {
          FilteredFrom(xs[1..], p, rest[j]);
          var q :| 0 <= q < |xs| - 1 && xs[1..][q] == rest[j];
          assert xs[q + 1] == rest[j];
        }
        DistinctCons(xs[0], rest);
        assert Filter(xs, p) == [xs[0]] + rest;
      } else {
        assert Filter(xs, p) == rest;
      }
    }
  }

  /** A book whose id none of `rest` has can go in front of it. */
  lemma DistinctCons(x: Book, rest: seq<Book>)
    requires DistinctIds(rest)
    requires forall j :: 0 <= j < |rest| ==> x.id != rest[j].id
    ensures DistinctIds([x] + rest)
  {
    var r := [x] + rest;
    forall i, j | 0 <= i < j < |r| ensures r[i].id != r[j].id {
      if i > 0 {
        assert r[i] == rest[i - 1] && r[j] == rest[j - 1];
      }
    }
  }

  /** Every book a filter keeps is one of the books filtered. */
  lemma FilteredFrom<T(!new)>(xs: seq<T>, p: T -> bool, m: T)
    requires m in Filter(xs, p)
    ensures m in xs
  {
    assert multiset(Filter(xs, p))[m] > 0;
  }

  function UserById(s: Store, id: Id): Option<User> {
    FindFirst(s.users, (u: User) => u.id == id)
  }

  function UserByEmail(s: Store, email: string): Option<User> {
    FindFirst(s.users, (u: User) => u.email == email)
  }

  function UserByUsername(s: Store, username: string): Option<User> {
    FindFirst(s.users, (u: User) => u.username == username)
  }

  function BookById(s: Store, id: Id): Option<Book> {
    FindFirst(s.books, (b: Book) => b.id == id)
  }

  ghost predicate HasUser(s: Store, id: Id) {
    exists u :: u in s.users && u.id == id
  }

  ghost predicate EmailTaken(s: Store, email: string) {
    exists u :: u in s.users && u.email == email
  }

  ghost predicate UsernameTaken(s: Store, username: string) {
    exists u :: u in s.users && u.username == username
  }

  ghost predicate HasBook(s: Store, id: Id) {
    exists b :: b in s.books && b.id == id
  }

  /** What the database and the handlers together keep true: ids are
      distinct and below the id counter, email and username are unique
      among users, and every book's owner resolves to a user. */
  ghost predicate Valid(s: Store) {
    && (forall i, j :: 0 <= i < j < |s.users| ==>
          s.users[i].id != s.users[j].id &&
          s.users[i].email != s.users[j].email &&
          s.users[i].username != s.users[j].username)
    && (forall u :: u in s.users ==> u.id < s.nextId)
    && (forall i, j :: 0 <= i < j < |s.books| ==> s.books[i].id != s.books[j].id)
    && (forall b :: b in s.books ==> b.id < s.nextId)
    && (forall b :: b in s.books ==> HasUser(s, b.owner))
  }

  /** In a valid store the user found by id is the only one with that id. */
  lemma UniqueUserById(s: Store, u: User)
    requires Valid(s)
    requires u in s.users
    ensures UserById(s, u.id) == Some(u)
  {
    var r := UserById(s, u.id);
    var k :| 0 <= k < |s.users| && s.users[k] == u;
    assert r.Some?;
    var i :| 0 <= i < |s.users| && s.users[i] == r.value && s.users[i].id == u.id;
    if i < k {
      assert false;
    } else if k < i {
      assert false;
    }
  }

  /** In a valid store the user found by email is the only one with that email. */
  lemma UniqueUserByEmail(s: Store, u: User)
    requires Valid(s)
    requires u in s.users
    ensures UserByEmail(s, u.email) == Some(u)
  {
    var r := UserByEmail(s, u.email);
    var k :| 0 <= k < |s.users| && s.users[k] == u;
    assert r.Some?;
    var i :| 0 <= i < |s.users| && s.users[i] == r.value && s.users[i].email == u.email;
    if i < k {
      assert false;
    } else if k < i {
      assert false;
    }
  }
}
