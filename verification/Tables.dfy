/** The ledger tables (tables.rs): append-only tables of records, with id
    allocation, typed insertion of transactions, deletion and lookup by
    party, lookup by id, and the sorted category lists. */
module Tables {
  import opened Wrappers
  import opened StringOrder

  // ---------------------------------------------------------------------------
  // Transactions and records
  // ---------------------------------------------------------------------------

  /** A transaction of a party: an income or an expense booked against an
      entity, or a movement of funds into (credit) or out of (debit) an
      account. Dates are day numbers, currencies their codes. */
  datatype Transaction =
    | Income(value: real, currency: string, date: int, category: string, subcategory: string, description: string, entityId: int)
    | Expense(value: real, currency: string, date: int, category: string, subcategory: string, description: string, entityId: int)
    | Credit(value: real, currency: string, date: int, accountId: int)
    | Debit(value: real, currency: string, date: int, accountId: int)

  datatype TableError =
    | IncorrectTable   // IncorrectTableError: the transaction belongs to another table
    | NotFound         // no record carries the id asked for

  /** A row of the income or the expense table. */
  datatype LedgerRecord = LedgerRecord(
    id: int, value: real, currency: string, date: int,
    category: string, subcategory: string, description: string,
    entityId: int, partyId: int)

  /** A row of the fund movement table: its type is the string "Credit" or
      "Debit", and a debit is stored with its value negated. */
  datatype FundRecord = FundRecord(
    id: int, kind: string, value: real, currency: string, date: int,
    accountId: int, partyId: int)

  /** A row of the party table. */
  datatype PartyRecord = PartyRecord(id: int, creationDate: int)

  /** A row of the entity table. */
  datatype EntityRecord = EntityRecord(id: int, name: string, country: string, kind: string, subtype: string, creationDate: int)

  /** A row of the account table. */
  datatype AccountRecord = AccountRecord(
    id: int, name: string, country: string, currency: string, kind: string,
    initialBalance: real, creationDate: int)

  function LedgerIdOf(r: LedgerRecord): int { r.id }
  function LedgerPartyOf(r: LedgerRecord): int { r.partyId }
  function FundIdOf(r: FundRecord): int { r.id }
  function FundPartyOf(r: FundRecord): int { r.partyId }
  function PartyIdOf(r: PartyRecord): int { r.id }
  function EntityIdOf(r: EntityRecord): int { r.id }
  function AccountIdOf(r: AccountRecord): int { r.id }

  // ---------------------------------------------------------------------------
  // Columns shared by every table
  // ---------------------------------------------------------------------------

  /** The column `f` of a table, in row order. */
  function Column<R>(t: seq<R>, f: R -> int): (c: seq<int>)
    ensures |c| == |t| && forall i :: 0 <= i < |t| ==> c[i] == f(t[i])
  {
    seq(|t|, i requires 0 <= i < |t| => f(t[i]))
  }

  /** `next_id`: zero for an empty table, otherwise one more than the
      largest id. */
  function NextId(ids: seq<int>): (n: int)
    ensures |ids| == 0 ==> n == 0
    ensures forall i :: 0 <= i < |ids| ==> ids[i] < n
    ensures |ids| > 0 ==> exists i :: 0 <= i < |ids| && ids[i] == n - 1
  {
    if |ids| == 0 then 0
    else
      var rest := NextId(ids[1..]);
      assert forall i :: 1 <= i < |ids| ==> ids[i] == ids[1..][i - 1];
      if |ids| == 1 || ids[0] >= rest then ids[0] + 1 else rest
  }

  /** The ids of a table with one more row are bounded by the next id of the
      table with that row's id appended. */
  lemma NextIdGrows(ids: seq<int>, k: int)
    requires k == NextId(ids)
    ensures NextId(ids + [k]) == k + 1
  {
    var n := NextId(ids + [k]);
    assert (ids + [k])[|ids|] == k;
    assert forall i :: 0 <= i < |ids| ==> (ids + [k])[i] == ids[i];
  }

  /** The rows of a table whose party is not `p`, in their order (the
      `party_id != p` filter of `delete_party`). */
  function WithoutParty<R(==,!new)>(t: seq<R>, party: R -> int, p: int): (r: seq<R>)
    ensures forall x :: x in r <==> x in t && party(x) != p
    ensures |r| <= |t|
  {
    if |t| == 0 then []
    else
      var rest := WithoutParty(t[1..], party, p);
      assert forall x :: x in t <==> x == t[0] || x in t[1..] by {
        assert t == [t[0]] + t[1..];
      }
      if party(t[0]) != p then [t[0]] + rest else rest
  }

  /** The ids of the rows of party `p`, in table order (`iter_party`). */
  function OfParty<R(==,!new)>(t: seq<R>, id: R -> int, party: R -> int, p: int): (r: seq<int>)
    ensures forall k :: k in r <==> exists i :: 0 <= i < |t| && party(t[i]) == p && id(t[i]) == k
    ensures |r| <= |t|
  {
    if |t| == 0 then []
    else
      var rest := OfParty(t[1..], id, party, p);
      assert forall i :: 1 <= i < |t| ==> t[i] == t[1..][i - 1];
      if party(t[0]) == p then [id(t[0])] + rest else rest
  }

  /** Deleting rows of other tables' parties distributes over appending. */
  lemma {:induction false} WithoutPartyAppend<R(!new)>(a: seq<R>, b: seq<R>, party: R -> int, p: int)
    ensures WithoutParty(a + b, party, p) == WithoutParty(a, party, p) + WithoutParty(b, party, p)
    decreases |a|
  {
    if |a| > 0 {
      assert (a + b)[1..] == a[1..] + b;
      WithoutPartyAppend(a[1..], b, party, p);
    } else {
      assert a + b == b;
    }
  }

  /** A table without rows of `p` is left as it is by deleting `p`. */
  lemma {:induction false} WithoutAbsentParty<R(!new)>(t: seq<R>, party: R -> int, p: int)
    requires forall i :: 0 <= i < |t| ==> party(t[i]) != p
    ensures WithoutParty(t, party, p) == t
    decreases |t|
  {
    if |t| > 0 {
      WithoutAbsentParty(t[1..], party, p);
      assert t == [t[0]] + t[1..];
    }
  }

  /** A table holding only rows of `p` is emptied by deleting `p`. */
  lemma {:induction false} WithoutOnlyParty<R(!new)>(t: seq<R>, party: R -> int, p: int)
    requires forall i :: 0 <= i < |t| ==> party(t[i]) == p
    ensures WithoutParty(t, party, p) == []
    decreases |t|
  {
    if |t| > 0 {
      WithoutOnlyParty(t[1..], party, p);
    }
  }

  lemma {:induction false} OfPartyAppend<R(!new)>(a: seq<R>, b: seq<R>, id: R -> int, party: R -> int, p: int)
    ensures OfParty(a + b, id, party, p) == OfParty(a, id, party, p) + OfParty(b, id, party, p)
    decreases |a|
  {
    if |a| > 0 {
      assert (a + b)[1..] == a[1..] + b;
      OfPartyAppend(a[1..], b, id, party, p);
    } else {
      assert a + b == b;
    }
  }

  /** After `delete_party(p)`, `iter_party(p)` finds nothing. */
  lemma OfPartyAfterDelete<R(!new)>(t: seq<R>, id: R -> int, party: R -> int, p: int)
    ensures OfParty(WithoutParty(t, party, p), id, party, p) == []
  {
  }

  /** The rows of party `p`, in table order (the `party_id == p` filter). */
  function RowsOf<R(==,!new)>(t: seq<R>, party: R -> int, p: int): (r: seq<R>)
    ensures forall x :: x in r <==> x in t && party(x) == p
    ensures forall i :: 0 <= i < |r| ==> party(r[i]) == p
  {
    if |t| == 0 then []
    else
      var rest := RowsOf(t[1..], party, p);
      assert forall x :: x in t <==> x == t[0] || x in t[1..] by {
        assert t == [t[0]] + t[1..];
      }
      if party(t[0]) == p then [t[0]] + rest else rest
  }

  /** `iter_party` is the id column of the rows of the party. */
  lemma {:induction false} OfPartyColumn<R(!new)>(t: seq<R>, id: R -> int, party: R -> int, p: int)
    ensures OfParty(t, id, party, p) == Column(RowsOf(t, party, p), id)
    decreases |t|
  {
    if |t| > 0 {
      OfPartyColumn(t[1..], id, party, p);
    }
  }

  lemma {:induction false} RowsOfAppend<R(!new)>(a: seq<R>, b: seq<R>, party: R -> int, p: int)
    ensures RowsOf(a + b, party, p) == RowsOf(a, party, p) + RowsOf(b, party, p)
    decreases |a|
  {
    if |a| > 0 {
      var ab := a + b;
      assert ab[0] == a[0] && ab[1..] == a[1..] + b;
      RowsOfAppend(a[1..], b, party, p);
      var head := if party(a[0]) == p then [a[0]] else [];
      assert RowsOf(ab, party, p) == head + RowsOf(a[1..] + b, party, p);
      assert RowsOf(a, party, p) == head + RowsOf(a[1..], party, p);
    } else {
      assert a + b == b;
    }
  }

  /** A table holding only rows of `p` is its own selection for `p`. */
  lemma {:induction false} RowsOfOnly<R(!new)>(t: seq<R>, party: R -> int, p: int)
    requires forall i :: 0 <= i < |t| ==> party(t[i]) == p
    ensures RowsOf(t, party, p) == t
    decreases |t|
  {
    if |t| > 0 {
      RowsOfOnly(t[1..], party, p);
      assert t == [t[0]] + t[1..];
    }
  }

  /** A table without rows of `p` selects nothing for `p`. */
  lemma RowsOfNone<R(!new)>(t: seq<R>, party: R -> int, p: int)
    requires forall i :: 0 <= i < |t| ==> party(t[i]) != p
    ensures RowsOf(t, party, p) == []
  {
  }

  /** Ids strictly increasing in table order, as appending `next_id` keeps
      them; in particular no id occurs twice. */
  ghost predicate Ascending<R>(t: seq<R>, id: R -> int)
  {
    forall i, j :: 0 <= i < j < |t| ==> id(t[i]) < id(t[j])
  }

  /** Appending the row with the next id keeps the ids ascending. */
  lemma AscendingAppend<R>(t: seq<R>, id: R -> int, x: R)
    requires Ascending(t, id) && id(x) == NextId(Column(t, id))
    ensures Ascending(t + [x], id)
  {
    var u := t + [x];
    forall i, j | 0 <= i < j < |u|
      ensures id(u[i]) < id(u[j])
    {
      assert u[i] == t[i];
      assert Column(t, id)[i] == id(t[i]);
      if j < |t| {
        assert u[j] == t[j];
      }
    }
  }

  /** Deleting a party keeps the ids ascending. */
  lemma {:induction false} WithoutPartyAscending<R(!new)>(t: seq<R>, id: R -> int, party: R -> int, p: int)
    requires Ascending(t, id)
    ensures Ascending(WithoutParty(t, party, p), id)
    decreases |t|
  {
    if |t| > 0 {
      assert Ascending(t[1..], id) by {
        forall i, j | 0 <= i < j < |t[1..]|
          ensures id(t[1..][i]) < id(t[1..][j])
        {
          assert t[1..][i] == t[i + 1] && t[1..][j] == t[j + 1];
        }
      }
      WithoutPartyAscending(t[1..], id, party, p);
      var rest := WithoutParty(t[1..], party, p);
      if party(t[0]) != p {
        var u := [t[0]] + rest;
        forall i, j | 0 <= i < j < |u|
          ensures id(u[i]) < id(u[j])
        {
          if i > 0 {
            assert u[i] == rest[i - 1] && u[j] == rest[j - 1];
          } else {
            assert u[j] == rest[j - 1];
            assert rest[j - 1] in t[1..];
            var k :| 0 <= k < |t[1..]| && t[1..][k] == rest[j - 1];
            assert t[1..][k] == t[k + 1];
          }
        }
      }
    }
  }

  /** With ascending ids, the lookup by a row's id finds that row. */
  lemma FindAscending<R(!new)>(t: seq<R>, id: R -> int, i: int)
    requires Ascending(t, id) && 0 <= i < |t|
    ensures FindById(t, id, id(t[i])) == Some(t[i])
  {
    var r := FindById(t, id, id(t[i]));
    var j :| 0 <= j < |t| && t[j] == r.value && id(t[j]) == id(t[i]) &&
      forall m :: 0 <= m < j ==> id(t[m]) != id(t[i]);
  }

  /** The first row with id `k` (the `id == k` filter, then row 0). */
  function FindById<R(==,!new)>(t: seq<R>, id: R -> int, k: int): (r: Option<R>)
    ensures r.None? <==> forall i :: 0 <= i < |t| ==> id(t[i]) != k
    ensures r.Some? ==> exists i :: 0 <= i < |t| && t[i] == r.value && id(t[i]) == k &&
                                    forall j :: 0 <= j < i ==> id(t[j]) != k
  {
    if |t| == 0 then None
    else if id(t[0]) == k then Some(t[0])
    else
      var r := FindById(t[1..], id, k);
      assert forall i :: 1 <= i < |t| ==> t[i] == t[1..][i - 1];
      if r.Some? then
        var i :| 0 <= i < |t[1..]| && t[1..][i] == r.value && id(t[1..][i]) == k &&
          forall j :: 0 <= j < i ==> id(t[1..][j]) != k;
        assert t[i + 1] == r.value;
        r
      else r
  }

  /** A row appended with an id above every present id is found by that id. */
  lemma FindAppended<R(!new)>(t: seq<R>, id: R -> int, x: R)
    requires forall i :: 0 <= i < |t| ==> id(t[i]) < id(x)
    ensures FindById(t + [x], id, id(x)) == Some(x)
  {
    var r := FindById(t + [x], id, id(x));
    assert (t + [x])[|t|] == x;
    assert forall i :: 0 <= i < |t| ==> (t + [x])[i] == t[i];
  }

  /** Appending a row leaves every earlier id's lookup as it was. */
  lemma FindBefore<R(!new)>(t: seq<R>, id: R -> int, x: R, k: int)
    requires FindById(t, id, k).Some?
    ensures FindById(t + [x], id, k) == FindById(t, id, k)
  {
    var r := FindById(t, id, k).value;
    var i :| 0 <= i < |t| && t[i] == r && id(t[i]) == k && forall j :: 0 <= j < i ==> id(t[j]) != k;
    assert (t + [x])[i] == t[i];
    var s := FindById(t + [x], id, k).value;
    var m :| 0 <= m < |t + [x]| && (t + [x])[m] == s && id((t + [x])[m]) == k &&
      forall j :: 0 <= j < m ==> id((t + [x])[j]) != k;
    assert (t + [x])[i] == t[i];
  }

  // ---------------------------------------------------------------------------
  // IncomeTable and ExpensesTable
  // ---------------------------------------------------------------------------

  /** Which of the two tables with the same columns. */
  datatype LedgerKind = IncomeLedger | ExpenseLedger

  /** The transaction variant a table stores. */
  predicate Accepts(kind: LedgerKind, tx: Transaction)
  {
    match kind
    case IncomeLedger => tx.Income?
    case ExpenseLedger => tx.Expense?
  }

  /** The transaction a ledger row reads back as (`transaction`). */
  function Booked(kind: LedgerKind, r: LedgerRecord): (tx: Transaction)
    ensures Accepts(kind, tx)
  {
    match kind
    case IncomeLedger => Income(r.value, r.currency, r.date, r.category, r.subcategory, r.description, r.entityId)
    case ExpenseLedger => Expense(r.value, r.currency, r.date, r.category, r.subcategory, r.description, r.entityId)
  }

  /** `insert_transaction` of the income and the expense table: a transaction
      of the table's variant is appended with the next id and the party's id;
      any other variant is refused and the table is unchanged. */
  function InsertLedger(kind: LedgerKind, t: seq<LedgerRecord>, tx: Transaction, partyId: int): (r: Result<seq<LedgerRecord>, TableError>)
    ensures r.Success? <==> Accepts(kind, tx)
    ensures r.Failure? ==> r.error == IncorrectTable
    ensures r.Success? ==>
      && |r.value| == |t| + 1 && r.value[..|t|] == t
      && r.value[|t|].id == NextId(Column(t, LedgerIdOf))
      && r.value[|t|].partyId == partyId
      && Booked(kind, r.value[|t|]) == tx
  {
    if !Accepts(kind, tx) then Failure(IncorrectTable)
    else
      var row := LedgerRecord(NextId(Column(t, LedgerIdOf)), tx.value, tx.currency, tx.date,
        tx.category, tx.subcategory, tx.description, tx.entityId, partyId);
      assert (t + [row])[..|t|] == t;
      Success(t + [row])
  }

  /** `transaction(id)` of the income and the expense table. */
  function LedgerTransaction(kind: LedgerKind, t: seq<LedgerRecord>, id: int): (r: Result<Transaction, TableError>)
    ensures r.Failure? <==> forall i :: 0 <= i < |t| ==> t[i].id != id
    ensures r.Failure? ==> r.error == NotFound
    ensures r.Success? ==> Accepts(kind, r.value)
  {
    match FindById(t, LedgerIdOf, id)
    case None => Failure(NotFound)
    case Some(row) => Success(Booked(kind, row))
  }

  /** Reading back the id just allocated gives the inserted transaction. */
  lemma LedgerRoundTrip(kind: LedgerKind, t: seq<LedgerRecord>, tx: Transaction, partyId: int)
    requires Accepts(kind, tx)
    ensures InsertLedger(kind, t, tx, partyId).Success?
    ensures LedgerTransaction(kind, InsertLedger(kind, t, tx, partyId).value, NextId(Column(t, LedgerIdOf))) == Success(tx)
  {
    var u := InsertLedger(kind, t, tx, partyId).value;
    assert u == t + [u[|t|]];
    FindAppended(t, LedgerIdOf, u[|t|]);
  }

  /** `categories`: the distinct categories, ascending. */
  function Categories(t: seq<LedgerRecord>): (r: seq<string>)
    ensures StrictlySorted(r)
    ensures forall c :: c in r <==> exists i :: 0 <= i < |t| && t[i].category == c
  {
    var column := seq(|t|, i requires 0 <= i < |t| => t[i].category);
    assert forall c :: c in column <==> exists i :: 0 <= i < |t| && t[i].category == c by {
      forall c | exists i :: 0 <= i < |t| && t[i].category == c
        ensures c in column
      {
        var i :| 0 <= i < |t| && t[i].category == c;
        assert column[i] == c;
      }
    }
    SortedUnique(column)
  }

  /** `subcategories(c)`: the distinct subcategories of the rows of category
      `c`, ascending. */
  function Subcategories(t: seq<LedgerRecord>, category: string): (r: seq<string>)
    ensures StrictlySorted(r)
    ensures forall s :: s in r <==> exists i :: 0 <= i < |t| && t[i].category == category && t[i].subcategory == s
  {
    SortedUnique(SubcategoryColumn(t, category))
  }

  /** The subcategories of the rows of one category (the `category == c`
      mask), in table order. */
  function SubcategoryColumn(t: seq<LedgerRecord>, category: string): (r: seq<string>)
    ensures forall s :: s in r <==> exists i :: 0 <= i < |t| && t[i].category == category && t[i].subcategory == s
  {
    if |t| == 0 then []
    else
      var rest := SubcategoryColumn(t[1..], category);
      assert forall i :: 1 <= i < |t| ==> t[i] == t[1..][i - 1];
      if t[0].category == category then [t[0].subcategory] + rest else rest
  }

  /** The category list is the only ascending duplicate-free list of the
      table's categories. */
  lemma CategoriesCanonical(t: seq<LedgerRecord>, xs: seq<string>)
    requires StrictlySorted(xs)
    requires forall c :: c in xs <==> exists i :: 0 <= i < |t| && t[i].category == c
    ensures Categories(t) == xs
  {
    SortedUniqueDetermined(Categories(t), xs);
  }

  /** Every subcategory list is drawn from the category list's rows only:
      adding rows of another category leaves it unchanged. */
  lemma SubcategoriesIgnoreOthers(t: seq<LedgerRecord>, extra: seq<LedgerRecord>, category: string)
    requires forall i :: 0 <= i < |extra| ==> extra[i].category != category
    ensures Subcategories(t + extra, category) == Subcategories(t, category)
  {
    var a := Subcategories(t + extra, category);
    var b := Subcategories(t, category);
    forall s
      ensures s in a <==> s in b
    {
      if s in a {
        var i :| 0 <= i < |t + extra| && (t + extra)[i].category == category && (t + extra)[i].subcategory == s;
        assert forall j :: |t| <= j < |t + extra| ==> (t + extra)[j] == extra[j - |t|];
        assert (t + extra)[i] == t[i];
      }
      if s in b {
        var i :| 0 <= i < |t| && t[i].category == category && t[i].subcategory == s;
        assert (t + extra)[i] == t[i];
      }
    }
    SortedUniqueDetermined(a, b);
  }

  // ---------------------------------------------------------------------------
  // FundsTable
  // ---------------------------------------------------------------------------

  /** `insert_transaction` of the fund movement table: a credit is stored as
      given under type "Credit", a debit under type "Debit" with its value
      negated; incomes and expenses are refused. */
  function InsertFund(t: seq<FundRecord>, tx: Transaction, partyId: int): (r: Result<seq<FundRecord>, TableError>)
    ensures r.Success? <==> tx.Credit? || tx.Debit?
    ensures r.Failure? ==> r.error == IncorrectTable
    ensures r.Success? ==>
      && |r.value| == |t| + 1 && r.value[..|t|] == t
      && r.value[|t|].id == NextId(Column(t, FundIdOf))
      && r.value[|t|].partyId == partyId
      && r.value[|t|].kind == (if tx.Credit? then "Credit" else "Debit")
      && r.value[|t|].value + (if tx.Credit? then -tx.value else tx.value) == 0.0
      && Moved(r.value[|t|]) == tx
  {
    var id := NextId(Column(t, FundIdOf));
    match tx
    case Credit(value, currency, date, accountId) =>
      var row := FundRecord(id, "Credit", value, currency, date, accountId, partyId);
      assert (t + [row])[..|t|] == t;
      Success(t + [row])
    case Debit(value, currency, date, accountId) =>
      var row := FundRecord(id, "Debit", -1.0 * value, currency, date, accountId, partyId);
      assert (t + [row])[..|t|] == t;
      assert -1.0 * (-1.0 * value) == value;
      Success(t + [row])
    case _ => Failure(IncorrectTable)
  }

  /** The transaction a fund row reads back as: type "Credit" as it is, any
      other type as a debit with the stored value negated again. */
  function Moved(r: FundRecord): (tx: Transaction)
    ensures tx.Credit? || tx.Debit?
  {
    if r.kind == "Credit" then Credit(r.value, r.currency, r.date, r.accountId)
    else Debit(-1.0 * r.value, r.currency, r.date, r.accountId)
  }

  /** `transaction(id)` of the fund movement table. */
  function FundTransaction(t: seq<FundRecord>, id: int): (r: Result<Transaction, TableError>)
    ensures r.Failure? <==> forall i :: 0 <= i < |t| ==> t[i].id != id
    ensures r.Failure? ==> r.error == NotFound
    ensures r.Success? ==> r.value.Credit? || r.value.Debit?
  {
    match FindById(t, FundIdOf, id)
    case None => Failure(NotFound)
    case Some(row) => Success(Moved(row))
  }

  /** The sign flip round trip: a credit or a debit inserted and read back by
      its id is the transaction inserted. */
  lemma FundRoundTrip(t: seq<FundRecord>, tx: Transaction, partyId: int)
    requires tx.Credit? || tx.Debit?
    ensures InsertFund(t, tx, partyId).Success?
    ensures FundTransaction(InsertFund(t, tx, partyId).value, NextId(Column(t, FundIdOf))) == Success(tx)
  {
    var u := InsertFund(t, tx, partyId).value;
    assert u == t + [u[|t|]];
    FindAppended(t, FundIdOf, u[|t|]);
    assert -1.0 * (-1.0 * tx.value) == tx.value;
  }

  // ---------------------------------------------------------------------------
  // PartyTable
  // ---------------------------------------------------------------------------

  /** `insert_party`: a party row with the next id and the party's creation date. */
  function InsertPartyRow(t: seq<PartyRecord>, creationDate: int): (r: seq<PartyRecord>)
    ensures |r| == |t| + 1 && r[..|t|] == t
    ensures r[|t|] == PartyRecord(NextId(Column(t, PartyIdOf)), creationDate)
  {
    var row := PartyRecord(NextId(Column(t, PartyIdOf)), creationDate);
    assert (t + [row])[..|t|] == t;
    t + [row]
  }

  // ---------------------------------------------------------------------------
  // EntityTable and AccountTable
  // ---------------------------------------------------------------------------

  /** An entity, as the lookup rebuilds it. */
  datatype Entity = Entity(name: string, country: string, kind: string, subtype: string)

  /** An account, as the lookup rebuilds it. */
  datatype Account = Account(name: string, country: string, currency: string, kind: string, initialBalance: real)

  /** `EntityTable::new`: one placeholder row with id 0, named and located
      "Unknown", of the default entity type, created `today`. */
  function NewEntityTable(defaultKind: string, today: int): (t: seq<EntityRecord>)
    ensures |t| == 1 && t[0].id == 0 && t[0].name == "Unknown" && t[0].country == "Unknown"
  {
    [EntityRecord(0, "Unknown", "Unknown", defaultKind, "", today)]
  }

  /** `insert_entity`: the entity appended under the next id, which is returned. */
  function InsertEntity(t: seq<EntityRecord>, e: Entity, today: int): (r: (seq<EntityRecord>, int))
    ensures |r.0| == |t| + 1 && r.0[..|t|] == t
    ensures r.0[|t|].id == r.1
    ensures forall i :: 0 <= i < |t| ==> t[i].id < r.1
    ensures |t| > 0 ==> exists i :: 0 <= i < |t| && t[i].id == r.1 - 1
  {
    var id := NextId(Column(t, EntityIdOf));
    var row := EntityRecord(id, e.name, e.country, e.kind, e.subtype, today);
    assert (t + [row])[..|t|] == t;
    (t + [row], id)
  }

  /** `entity(id)`: the first row with the id, rebuilt; an unknown id fails. */
  function EntityById(t: seq<EntityRecord>, id: int): (r: Result<Entity, TableError>)
    ensures r.Failure? <==> forall i :: 0 <= i < |t| ==> t[i].id != id
    ensures r.Failure? ==> r.error == NotFound
  {
    match FindById(t, EntityIdOf, id)
    case None => Failure(NotFound)
    case Some(row) => Success(Entity(row.name, row.country, row.kind, row.subtype))
  }

  /** The first entity inserted into a new table gets id 1. */
  lemma FirstEntityId(defaultKind: string, created: int, e: Entity, today: int)
    ensures InsertEntity(NewEntityTable(defaultKind, created), e, today).1 == 1
  {
  }

  /** An inserted entity is found under the id returned. */
  lemma EntityRoundTrip(t: seq<EntityRecord>, e: Entity, today: int)
    ensures EntityById(InsertEntity(t, e, today).0, InsertEntity(t, e, today).1) == Success(e)
  {
    var (u, id) := InsertEntity(t, e, today);
    assert u == t + [u[|t|]];
    FindAppended(t, EntityIdOf, u[|t|]);
  }

  /** `AccountTable::new`: one placeholder row with id 0, named and located
      "Unknown", in the default currency, of the default account type, with a
      zero initial balance, created `today`. */
  function NewAccountTable(defaultCurrency: string, defaultKind: string, today: int): (t: seq<AccountRecord>)
    ensures |t| == 1 && t[0].id == 0 && t[0].name == "Unknown" && t[0].initialBalance == 0.0
  {
    [AccountRecord(0, "Unknown", "Unknown", defaultCurrency, defaultKind, 0.0, today)]
  }

  /** `insert_account`: the account appended under the next id, which is returned. */
  function InsertAccount(t: seq<AccountRecord>, a: Account, today: int): (r: (seq<AccountRecord>, int))
    ensures |r.0| == |t| + 1 && r.0[..|t|] == t
    ensures r.0[|t|].id == r.1
    ensures forall i :: 0 <= i < |t| ==> t[i].id < r.1
    ensures |t| > 0 ==> exists i :: 0 <= i < |t| && t[i].id == r.1 - 1
  {
    var id := NextId(Column(t, AccountIdOf));
    var row := AccountRecord(id, a.name, a.country, a.currency, a.kind, a.initialBalance, today);
    assert (t + [row])[..|t|] == t;
    (t + [row], id)
  }

  /** `account(id)`: the first row with the id, rebuilt; an unknown id fails. */
  function AccountById(t: seq<AccountRecord>, id: int): (r: Result<Account, TableError>)
    ensures r.Failure? <==> forall i :: 0 <= i < |t| ==> t[i].id != id
    ensures r.Failure? ==> r.error == NotFound
  {
    match FindById(t, AccountIdOf, id)
    case None => Failure(NotFound)
    case Some(row) => Success(Account(row.name, row.country, row.currency, row.kind, row.initialBalance))
  }

  /** The first account inserted into a new table gets id 1. */
  lemma FirstAccountId(defaultCurrency: string, defaultKind: string, created: int, a: Account, today: int)
    ensures InsertAccount(NewAccountTable(defaultCurrency, defaultKind, created), a, today).1 == 1
  {
  }

  /** An inserted account is found under the id returned. */
  lemma AccountRoundTrip(t: seq<AccountRecord>, a: Account, today: int)
    ensures AccountById(InsertAccount(t, a, today).0, InsertAccount(t, a, today).1) == Success(a)
  {
    var (u, id) := InsertAccount(t, a, today);
    assert u == t + [u[|t|]];
    FindAppended(t, AccountIdOf, u[|t|]);
  }
}
