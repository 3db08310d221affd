/**
 * The owner-scoped customer store: CustomerService over the `customers`
 * table, and the CustomerController actions that list, create, update and
 * delete a user's customers. The table is a class whose rows the service
 * methods reassign; queries are functions of the rows.
 */
module Customers {
  import opened Options
  import opened Pagination
  import opened Requests

  /** A row of `customers`; `createdAt` is the `created_at` timestamp. */
  datatype Customer = Customer(
    id: nat,
    userId: nat,
    createdAt: int,
    name: string,
    rfc: string,
    address: Option<string>,
    phone: Option<string>,
    website: Option<string>)

  /**
   * An attribute array restricted to the fillable keys (`user_id`, `name`,
   * `rfc`, `address`, `phone`, `website`); any other key is dropped by mass
   * assignment and cannot be written here. `None` means the key is absent.
   */
  datatype Attributes = Attributes(
    userId: Option<nat>,
    name: Option<string>,
    rfc: Option<string>,
    address: Option<Option<string>>,
    phone: Option<Option<string>>,
    website: Option<Option<string>>)

  const NoAttributes := Attributes(None, None, None, None, None, None)

  /** Every attribute the array supplies has the supplied value in `c`. */
  predicate Carries(c: Customer, a: Attributes) {
    (a.userId.Some? ==> c.userId == a.userId.value)
    && (a.name.Some? ==> c.name == a.name.value)
    && (a.rfc.Some? ==> c.rfc == a.rfc.value)
    && (a.address.Some? ==> c.address == a.address.value)
    && (a.phone.Some? ==> c.phone == a.phone.value)
    && (a.website.Some? ==> c.website == a.website.value)
  }

  /** Every attribute the array does not supply is the same in `c` and `d`. */
  predicate KeepsUnsupplied(c: Customer, d: Customer, a: Attributes) {
    (a.userId.None? ==> d.userId == c.userId)
    && (a.name.None? ==> d.name == c.name)
    && (a.rfc.None? ==> d.rfc == c.rfc)
    && (a.address.None? ==> d.address == c.address)
    && (a.phone.None? ==> d.phone == c.phone)
    && (a.website.None? ==> d.website == c.website)
  }

  /** Fill the supplied attributes into a row, as `fill` does before a save. */
  function Apply(c: Customer, a: Attributes): (d: Customer)
    ensures d.id == c.id && d.createdAt == c.createdAt
    ensures Carries(d, a) && KeepsUnsupplied(c, d, a)
  {
    Customer(c.id, a.userId.GetOr(c.userId), c.createdAt, a.name.GetOr(c.name), a.rfc.GetOr(c.rfc),
      a.address.GetOr(c.address), a.phone.GetOr(c.phone), a.website.GetOr(c.website))
  }

  /** Apply is determined by its contract: any row that carries the attributes and keeps the rest is Apply's result. */
  lemma ApplyUnique(c: Customer, a: Attributes, d: Customer)
    requires d.id == c.id && d.createdAt == c.createdAt
    requires Carries(d, a) && KeepsUnsupplied(c, d, a)
    ensures d == Apply(c, a)
  {
  }

  /** Applying the same attributes twice changes nothing more; an empty array changes nothing. */
  lemma ApplyIdempotent(c: Customer, a: Attributes)
    ensures Apply(Apply(c, a), a) == Apply(c, a)
    ensures Apply(c, NoAttributes) == c
  {
  }

  /** The position of the row with this id, if any. */
  function FindIndex(rows: seq<Customer>, id: int): (k: Option<nat>)
    ensures k.Some? ==> k.value < |rows| && rows[k.value].id == id
    ensures k.Some? ==> forall j :: 0 <= j < k.value ==> rows[j].id != id
    ensures k.None? ==> forall j :: 0 <= j < |rows| ==> rows[j].id != id
  {
    if rows == [] then None
    else if rows[0].id == id then Some(0)
    else match FindIndex(rows[1..], id) {
      case None => None
      case Some(j) => Some(j + 1)
    }
  }

  predicate DistinctIds(rows: seq<Customer>) {
    forall i, j :: 0 <= i < j < |rows| ==> rows[i].id != rows[j].id
  }

  /** The rows of one owner, in table order. */
  function OwnedBy(rows: seq<Customer>, owner: nat): (r: seq<Customer>)
    ensures |r| <= |rows|
    ensures forall c :: c in r <==> c in rows && c.userId == owner
  {
    if rows == [] then []
    else (if rows[0].userId == owner then [rows[0]] else []) + OwnedBy(rows[1..], owner)
  }

  /** `orderBy('created_at', 'desc')`: no row is older than a row after it. */
  predicate NewestFirst(s: seq<Customer>) {
    forall i, j :: 0 <= i < j < |s| ==> s[i].createdAt >= s[j].createdAt
  }

  /** A row no older than every row of a newest-first list can go in front of it. */
  lemma ConsNewest(h: Customer, s: seq<Customer>)
    requires NewestFirst(s)
    requires forall x :: x in s ==> h.createdAt >= x.createdAt
    ensures NewestFirst([h] + s)
  {
    forall i, j | 0 <= i < j < |[h] + s|
      ensures ([h] + s)[i].createdAt >= ([h] + s)[j].createdAt
    {
      assert ([h] + s)[j] == s[j - 1];
      if i > 0 {
        assert ([h] + s)[i] == s[i - 1];
      }
    }
  }

  function InsertNewest(c: Customer, s: seq<Customer>): (r: seq<Customer>)
    ensures multiset(r) == multiset(s) + multiset{c}
  {
    if s == [] || c.createdAt >= s[0].createdAt then [c] + s
    else
      assert s == [s[0]] + s[1..];
      [s[0]] + InsertNewest(c, s[1..])
  }

  /** Inserting into a newest-first list keeps it newest first. */
  lemma {:induction false} InsertKeepsNewestFirst(c: Customer, s: seq<Customer>)
    requires NewestFirst(s)
    ensures NewestFirst(InsertNewest(c, s))
  {
    if s == [] || c.createdAt >= s[0].createdAt {
      forall x | x in s
        ensures c.createdAt >= x.createdAt
      {
        var j :| 0 <= j < |s| && s[j] == x;
        assert s[0].createdAt >= s[j].createdAt || j == 0;
      }
      ConsNewest(c, s);
    } else {
      var rest := InsertNewest(c, s[1..]);
      InsertKeepsNewestFirst(c, s[1..]);
      forall x | x in rest
        ensures s[0].createdAt >= x.createdAt
      {
        assert x in multiset(rest);
        if x != c {
          assert x in multiset(s[1..]);
          var j :| 0 <= j < |s[1..]| && s[1..][j] == x;
          assert s[j + 1] == x;
        }
      }
      ConsNewest(s[0], rest);
    }
  }

  /** The rows sorted newest first; rows with equal timestamps keep their table order. */
  function SortNewest(s: seq<Customer>): (r: seq<Customer>)
    ensures multiset(r) == multiset(s)
  {
    if s == [] then []
    else
      assert s == [s[0]] + s[1..];
      InsertNewest(s[0], SortNewest(s[1..]))
  }

  lemma {:induction false} SortIsNewestFirst(s: seq<Customer>)
    ensures NewestFirst(SortNewest(s))
  {
    if s != [] {
      SortIsNewestFirst(s[1..]);
      InsertKeepsNewestFirst(s[0], SortNewest(s[1..]));
    }
  }

  /** getAllByUserId: every customer of the owner and no other, newest first. */
  function AllByUser(rows: seq<Customer>, owner: nat): (r: seq<Customer>)
    ensures NewestFirst(r)
    ensures multiset(r) == multiset(OwnedBy(rows, owner))
    ensures |r| == |OwnedBy(rows, owner)|
    ensures forall c :: c in r <==> c in rows && c.userId == owner
  {
    var r := SortNewest(OwnedBy(rows, owner));
    SortIsNewestFirst(OwnedBy(rows, owner));
    assert forall c :: c in r <==> c in multiset(OwnedBy(rows, owner));
    r
  }

  const DefaultPerPage: nat := 15

  /** getByUserId: one page of the owner's customers, newest first. */
  function ByUser(rows: seq<Customer>, owner: nat, perPage: nat, page: nat): (p: Page<Customer>)
    requires perPage >= 1 && page >= 1
    ensures p.total == |OwnedBy(rows, owner)| && p.perPage == perPage
    ensures |p.data| <= perPage
    ensures p.currentPage == page
    ensures page == 1 ==> p.data == AllByUser(rows, owner)[..Min(perPage, p.total)]
    ensures forall k :: 0 <= k < |p.data| ==>
      PageStart(perPage, page) + k < p.total && p.data[k] == AllByUser(rows, owner)[PageStart(perPage, page) + k]
    ensures forall c :: c in p.data ==> c in rows && c.userId == owner
    ensures NewestFirst(p.data)
  {
    var all := AllByUser(rows, owner);
    var p := Paginate(all, perPage, page);
    assert NewestFirst(p.data) by {
      var offset := Min(PageStart(perPage, page), |all|);
      var end := Min(offset + perPage, |all|);
      assert p.data == all[offset..end];
    }
    p
  }

  /** The first row of the first page is at least as recent as every customer of the owner. */
  lemma {:induction false} FirstPageStartsWithNewest(rows: seq<Customer>, owner: nat, perPage: nat, c: Customer)
    requires perPage >= 1
    requires c in rows && c.userId == owner
    ensures var p := ByUser(rows, owner, perPage, 1);
      p.data != [] && p.data[0].createdAt >= c.createdAt
  {
    var all := AllByUser(rows, owner);
    assert c in all;
    var j :| 0 <= j < |all| && all[j] == c;
    assert all[0].createdAt >= all[j].createdAt;
  }

  /** The `customers` table. */
  class CustomerStore {
    var rows: seq<Customer>
    var nextId: nat

    ghost predicate Valid()
      reads this
    {
      DistinctIds(rows) && forall i :: 0 <= i < |rows| ==> rows[i].id < nextId
    }

    constructor()
      ensures Valid() && rows == [] && nextId == 1
    {
      rows := [];
      nextId := 1;
    }

    /** findById: the row with this id, or null when there is none. */
    function FindById(id: int): (r: Option<Customer>)
      reads this
      ensures r.Some? ==> r.value in rows && r.value.id == id
      ensures r.None? <==> forall c :: c in rows ==> c.id != id
    {
      match FindIndex(rows, id) {
        case None => None
        case Some(k) => Some(rows[k])
      }
    }

    /**
     * create: a new row with the next id, `created_at` set to `now`, the
     * supplied attributes and null for every absent nullable one. `name`,
     * `rfc` and `user_id` are NOT NULL columns, so they must be supplied.
     */
    method Create(a: Attributes, now: int) returns (c: Customer)
      requires Valid()
      requires a.userId.Some? && a.name.Some? && a.rfc.Some?
      modifies this
      ensures Valid()
      ensures c == Apply(Customer(old(nextId), 0, now, "", "", None, None, None), a)
      ensures rows == old(rows) + [c]
      ensures FindById(c.id) == Some(c)
    {
      c := Apply(Customer(nextId, 0, now, "", "", None, None, None), a);
      rows := rows + [c];
      nextId := nextId + 1;
    }

    /** update followed by fresh: the row with the supplied attributes filled in, as now stored. */
    method Update(id: int, a: Attributes) returns (c: Customer)
      requires Valid() && FindById(id).Some?
      modifies this
      ensures Valid() && nextId == old(nextId)
      ensures c == Apply(old(FindById(id)).value, a)
      ensures rows == old(rows)[FindIndex(old(rows), id).value := c]
      ensures FindById(id) == Some(c)
    {
      var k := FindIndex(rows, id).value;
      c := Apply(rows[k], a);
      ghost var before := rows;
      rows := rows[k := c];
      assert forall j :: 0 <= j < |rows| ==> rows[j].id == before[j].id;
      var k' := FindIndex(rows, id);
      assert k'.Some? && k'.value == k;
    }

    /** delete: removes the row with this id, keeps the others in order, and reports true. */
    method Delete(id: int) returns (deleted: bool)
      requires Valid() && FindById(id).Some?
      modifies this
      ensures Valid() && nextId == old(nextId)
      ensures deleted
      ensures FindById(id).None?
      ensures rows == old(rows)[..FindIndex(old(rows), id).value] + old(rows)[FindIndex(old(rows), id).value + 1..]
    {
      var k := FindIndex(rows, id).value;
      ghost var before := rows;
      rows := rows[..k] + rows[k + 1..];
      forall c | c in rows
        ensures c.id != id
      {
        var j :| 0 <= j < |rows| && rows[j] == c;
        if j < k {
          assert c == before[j];
        } else {
          assert c == before[j + 1];
        }
      }
      deleted := true;
    }
  }

  /** The page sizes the listing accepts. */
  const AllowedPerPage: set<nat> := {10, 15, 25, 50, 100}

  /** index: the `per_page` parameter when it is an allowed size, otherwise 15. */
  function PerPage(param: Option<int>): (n: nat)
    ensures n in AllowedPerPage
    ensures param.Some? && param.value in AllowedPerPage ==> n == param.value
    ensures param.None? || param.value !in AllowedPerPage ==> n == DefaultPerPage
  {
    if param.Some? && param.value in AllowedPerPage then param.value else DefaultPerPage
  }

  /** index: the requester's customers, one page of an allowed size. */
  function Index(rows: seq<Customer>, requester: nat, perPageParam: Option<int>, pageParam: Option<int>): (p: Page<Customer>)
    ensures p.perPage in AllowedPerPage
    ensures p.total == |OwnedBy(rows, requester)|
    ensures p.currentPage == ResolvePage(pageParam)
    ensures ResolvePage(pageParam) == 1 ==> p.data == AllByUser(rows, requester)[..Min(p.perPage, p.total)]
    ensures forall c :: c in p.data ==> c in rows && c.userId == requester
    ensures NewestFirst(p.data)
  {
    ByUser(rows, requester, PerPage(perPageParam), ResolvePage(pageParam))
  }

  /** The response of an update or destroy request. */
  datatype Outcome = ValidationFailed(errors: set<Field>) | NotFound | Redirected

  /** The guard of update and destroy: the customer exists and belongs to the requester. */
  function OwnedCustomer(rows: seq<Customer>, requester: nat, id: int): (o: bool)
    ensures rows == [] ==> !o
    ensures o ==> exists i :: 0 <= i < |rows| && rows[i].id == id
  {
    exists c :: c in rows && c.id == id && c.userId == requester
  }

  /**
   * store: the validated fields with `user_id` replaced by the requester's
   * id, whatever the request carried.
   */
  method Store(store: CustomerStore, requester: nat, validated: Attributes, now: int) returns (c: Customer)
    requires store.Valid() && validated.name.Some? && validated.rfc.Some?
    modifies store
    ensures store.Valid()
    ensures c.userId == requester
    ensures Carries(c, validated.(userId := None))
    ensures store.rows == old(store.rows) + [c]
  {
    c := store.Create(validated.(userId := Some(requester)), now);
  }

  /** The attributes `validated()` yields: the rule keys present in the request, never `user_id`. */
  function Validated(input: CustomerInput): (a: Attributes)
    ensures a.userId.None?
  {
    Attributes(None, input.name, input.rfc, input.address, input.phone, input.website)
  }

  /**
   * update: the form request is validated first; then an absent customer and
   * a customer of another user both give 404 and change nothing; otherwise
   * the validated fields are applied, and the owner stays the same.
   */
  method Update(store: CustomerStore, requester: nat, id: int, input: CustomerInput, isUrl: string -> bool)
    returns (out: Outcome)
    requires store.Valid()
    modifies store
    ensures store.Valid()
    ensures out.ValidationFailed? <==> UpdateCustomerErrors(input, isUrl) != {}
    ensures out.ValidationFailed? ==> out.errors == UpdateCustomerErrors(input, isUrl)
    ensures out.NotFound? <==> UpdateCustomerErrors(input, isUrl) == {} && !OwnedCustomer(old(store.rows), requester, id)
    ensures !out.Redirected? ==> store.rows == old(store.rows) && store.nextId == old(store.nextId)
    ensures out.Redirected? ==>
      var k := FindIndex(old(store.rows), id).value;
      old(store.rows)[k].userId == requester
      && store.rows == old(store.rows)[k := Apply(old(store.rows)[k], Validated(input))]
    ensures forall c :: c in old(store.rows) && c.userId != requester ==> c in store.rows
  {
    var errs := UpdateCustomerErrors(input, isUrl);
    if errs != {} {
      return ValidationFailed(errs);
    }
    var found := store.FindById(id);
    if found.None? || found.value.userId != requester {
      return NotFound;
    }
    ghost var k := FindIndex(store.rows, id).value;
    ghost var before := store.rows;
    var _ := store.Update(id, Validated(input));
    forall c | c in before && c.userId != requester
      ensures c in store.rows
    {
      var j :| 0 <= j < |before| && before[j] == c;
      assert j != k;
      assert store.rows[j] == c;
    }
    out := Redirected;
  }

  /**
   * destroy: an absent customer and a customer of another user both give
   * 404 and change nothing; otherwise that one row is removed.
   */
  method Destroy(store: CustomerStore, requester: nat, id: int) returns (out: Outcome)
    requires store.Valid()
    modifies store
    ensures store.Valid()
    ensures out.NotFound? <==> !OwnedCustomer(old(store.rows), requester, id)
    ensures out.NotFound? || out.Redirected?
    ensures out.NotFound? ==> store.rows == old(store.rows) && store.nextId == old(store.nextId)
    ensures out.Redirected? ==>
      var k := FindIndex(old(store.rows), id).value;
      old(store.rows)[k].userId == requester
      && store.rows == old(store.rows)[..k] + old(store.rows)[k + 1..]
    ensures forall c :: c in old(store.rows) && c.userId != requester ==> c in store.rows
  {
    var found := store.FindById(id);
    if found.None? || found.value.userId != requester {
      return NotFound;
    }
    ghost var k := FindIndex(store.rows, id).value;
    ghost var before := store.rows;
    var _ := store.Delete(id);
    forall c | c in before && c.userId != requester
      ensures c in store.rows
    {
      var j :| 0 <= j < |before| && before[j] == c;
      assert j != k;
      if j < k {
        assert store.rows[j] == c;
      } else {
        assert store.rows[j - 1] == c;
      }
    }
    out := Redirected;
  }
}
