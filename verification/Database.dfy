/** The database façade (database/mod.rs): the six tables together, a party
    stored by routing each of its transactions to the table of its variant,
    and a party removed from and reassembled out of those tables. */
module Database {
  import opened Wrappers
  import opened Tables

  /** A party: transactions entered together, and the day it was created. */
  datatype Party = Party(transactions: seq<Transaction>, creationDate: int)

  datatype DataBase = DataBase(
    incomes: seq<LedgerRecord>,
    expenses: seq<LedgerRecord>,
    funds: seq<FundRecord>,
    parties: seq<PartyRecord>,
    entities: seq<EntityRecord>,
    accounts: seq<AccountRecord>)

  /** The six tables by name. */
  datatype TableName = IncomeTable | ExpenseTable | FundTable | PartyTable | EntityTable | AccountTable

  /** The table a transaction variant belongs in. */
  function Destination(tx: Transaction): TableName
  {
    match tx
    case Income(_, _, _, _, _, _, _) => IncomeTable
    case Expense(_, _, _, _, _, _, _) => ExpenseTable
    case Credit(_, _, _, _) => FundTable
    case Debit(_, _, _, _) => FundTable
  }

  /** The tables that differ between two databases. */
  function Changed(a: DataBase, b: DataBase): set<TableName>
  {
    (if a.incomes != b.incomes then {IncomeTable} else {}) +
    (if a.expenses != b.expenses then {ExpenseTable} else {}) +
    (if a.funds != b.funds then {FundTable} else {}) +
    (if a.parties != b.parties then {PartyTable} else {}) +
    (if a.entities != b.entities then {EntityTable} else {}) +
    (if a.accounts != b.accounts then {AccountTable} else {})
  }

  /** The income or the expense table. */
  function Ledger(db: DataBase, kind: LedgerKind): seq<LedgerRecord>
  {
    match kind
    case IncomeLedger => db.incomes
    case ExpenseLedger => db.expenses
  }

  /** The ids of the party table. */
  function PartyIds(db: DataBase): seq<int>
  {
    Column(db.parties, PartyIdOf)
  }

  /** The database invariant kept by every operation: ids ascending in the
      transaction and party tables, and every transaction row belonging to a
      party of the party table. */
  ghost predicate Valid(db: DataBase)
  {
    && Ascending(db.incomes, LedgerIdOf)
    && Ascending(db.expenses, LedgerIdOf)
    && Ascending(db.funds, FundIdOf)
    && Ascending(db.parties, PartyIdOf)
    && (forall i :: 0 <= i < |db.incomes| ==> db.incomes[i].partyId in PartyIds(db))
    && (forall i :: 0 <= i < |db.expenses| ==> db.expenses[i].partyId in PartyIds(db))
    && (forall i :: 0 <= i < |db.funds| ==> db.funds[i].partyId in PartyIds(db))
  }

  /** `DataBase::new`: empty transaction and party tables, and the entity and
      account tables with their placeholder rows. */
  function NewDataBase(today: int, defaultEntityKind: string, defaultCurrency: string, defaultAccountKind: string): (db: DataBase)
    ensures Valid(db)
    ensures |db.incomes| == 0 && |db.expenses| == 0 && |db.funds| == 0 && |db.parties| == 0
    ensures |db.entities| == 1 && |db.accounts| == 1
  {
    DataBase([], [], [], [], NewEntityTable(defaultEntityKind, today), NewAccountTable(defaultCurrency, defaultAccountKind, today))
  }

  // ---------------------------------------------------------------------------
  // insert_transaction and insert_party
  // ---------------------------------------------------------------------------

  /** How a ledger table changes when a transaction is inserted: one row with
      the next id, the party and the transaction appended when the table
      takes the variant, nothing otherwise. */
  ghost predicate LedgerStep(kind: LedgerKind, before: seq<LedgerRecord>, after: seq<LedgerRecord>, tx: Transaction, partyId: int)
  {
    if Accepts(kind, tx) then
      && |after| == |before| + 1 && after[..|before|] == before
      && after[|before|].id == NextId(Column(before, LedgerIdOf))
      && after[|before|].partyId == partyId
      && Booked(kind, after[|before|]) == tx
    else after == before
  }

  /** The same for the fund movement table, which takes credits and debits. */
  ghost predicate FundStep(before: seq<FundRecord>, after: seq<FundRecord>, tx: Transaction, partyId: int)
  {
    if tx.Credit? || tx.Debit? then
      && |after| == |before| + 1 && after[..|before|] == before
      && after[|before|].id == NextId(Column(before, FundIdOf))
      && after[|before|].partyId == partyId
      && Moved(after[|before|]) == tx
    else after == before
  }

  /** `insert_transaction`: the transaction goes to the table of its variant;
      the routing matches every variant, so it never fails. */
  function InsertTransaction(db: DataBase, tx: Transaction, partyId: int): (r: DataBase)
    ensures LedgerStep(IncomeLedger, db.incomes, r.incomes, tx, partyId)
    ensures LedgerStep(ExpenseLedger, db.expenses, r.expenses, tx, partyId)
    ensures FundStep(db.funds, r.funds, tx, partyId)
    ensures r.parties == db.parties && r.entities == db.entities && r.accounts == db.accounts
  {
    match tx
    case Expense(_, _, _, _, _, _, _) => db.(expenses := InsertLedger(ExpenseLedger, db.expenses, tx, partyId).value)
    case Income(_, _, _, _, _, _, _) => db.(incomes := InsertLedger(IncomeLedger, db.incomes, tx, partyId).value)
    case Credit(_, _, _, _) => db.(funds := InsertFund(db.funds, tx, partyId).value)
    case Debit(_, _, _, _) => db.(funds := InsertFund(db.funds, tx, partyId).value)
  }

  /** Inserting a transaction changes exactly the table of its variant. */
  lemma InsertTouchesOneTable(db: DataBase, tx: Transaction, partyId: int)
    ensures Changed(db, InsertTransaction(db, tx, partyId)) == {Destination(tx)}
  {
    var r := InsertTransaction(db, tx, partyId);
    assert |r.incomes| != |db.incomes| <==> tx.Income?;
    assert |r.expenses| != |db.expenses| <==> tx.Expense?;
    assert |r.funds| != |db.funds| <==> tx.Credit? || tx.Debit?;
  }

  /** The transactions of one ledger table's variant, in order. */
  function Accepted(kind: LedgerKind, txs: seq<Transaction>): (r: seq<Transaction>)
    ensures forall i :: 0 <= i < |r| ==> Accepts(kind, r[i])
    ensures |r| <= |txs|
  {
    if |txs| == 0 then []
    else
      var last := txs[|txs| - 1];
      Accepted(kind, txs[..|txs| - 1]) + (if Accepts(kind, last) then [last] else [])
  }

  /** The credits and debits, in order. */
  function Movements(txs: seq<Transaction>): (r: seq<Transaction>)
    ensures forall i :: 0 <= i < |r| ==> r[i].Credit? || r[i].Debit?
    ensures |r| <= |txs|
  {
    if |txs| == 0 then []
    else
      var last := txs[|txs| - 1];
      Movements(txs[..|txs| - 1]) + (if last.Credit? || last.Debit? then [last] else [])
  }

  /** The transactions grouped by table, incomes then expenses then fund
      movements, as `party` reassembles them. */
  function Grouped(txs: seq<Transaction>): seq<Transaction>
  {
    Accepted(IncomeLedger, txs) + Accepted(ExpenseLedger, txs) + Movements(txs)
  }

  /** Grouping by table loses and invents no transaction. */
  lemma {:induction false} GroupingIsPermutation(txs: seq<Transaction>)
    ensures multiset(Grouped(txs)) == multiset(txs)
    decreases |txs|
  {
    if |txs| > 0 {
      var pre := txs[..|txs| - 1];
      var last := txs[|txs| - 1];
      calc {
        multiset(Grouped(txs));
        { GroupStep(txs); }
        multiset(Grouped(pre)) + multiset{last};
        { GroupingIsPermutation(pre); }
        multiset(pre) + multiset{last};
        { assert txs == pre + [last]; }
        multiset(txs);
      }
    }
  }

  /** Each transaction adds itself to exactly one group. */
  lemma GroupStep(txs: seq<Transaction>)
    requires |txs| > 0
    ensures multiset(Grouped(txs)) == multiset(Grouped(txs[..|txs| - 1])) + multiset{txs[|txs| - 1]}
  {
    var pre := txs[..|txs| - 1];
    var last := txs[|txs| - 1];
    GroupedMultiset(txs);
    GroupedMultiset(pre);
    var ia := AcceptedStep(IncomeLedger, txs);
    var ib := AcceptedStep(ExpenseLedger, txs);
    var ic := MovementsStep(txs);
    AddedOnce(last, ia, ib, ic);
    Regroup(multiset(Accepted(IncomeLedger, pre)), multiset(Accepted(ExpenseLedger, pre)),
      multiset(Movements(pre)), ia, ib, ic, last);
  }

  lemma GroupedMultiset(txs: seq<Transaction>)
    ensures multiset(Grouped(txs)) ==
      multiset(Accepted(IncomeLedger, txs)) + multiset(Accepted(ExpenseLedger, txs)) + multiset(Movements(txs))
  {
  }

  /** A transaction belongs to exactly one of the three groups. */
  lemma AddedOnce(t: Transaction, ia: multiset<Transaction>, ib: multiset<Transaction>, ic: multiset<Transaction>)
    requires ia == if Accepts(IncomeLedger, t) then multiset{t} else multiset{}
    requires ib == if Accepts(ExpenseLedger, t) then multiset{t} else multiset{}
    requires ic == if t.Credit? || t.Debit? then multiset{t} else multiset{}
    ensures ia + ib + ic == multiset{t}
  {
  }

  lemma Regroup<T>(a: multiset<T>, b: multiset<T>, c: multiset<T>,
                   ia: multiset<T>, ib: multiset<T>, ic: multiset<T>, t: T)
    requires ia + ib + ic == multiset{t}
    ensures (a + ia) + (b + ib) + (c + ic) == (a + b + c) + multiset{t}
  {
    calc {
      (a + ia) + (b + ib) + (c + ic);
      (a + b + c) + (ia + ib + ic);
    }
  }

  /** What the last transaction adds to a ledger group. */
  lemma AcceptedStep(kind: LedgerKind, txs: seq<Transaction>) returns (added: multiset<Transaction>)
    requires |txs| > 0
    ensures added == if Accepts(kind, txs[|txs| - 1]) then multiset{txs[|txs| - 1]} else multiset{}
    ensures multiset(Accepted(kind, txs)) == multiset(Accepted(kind, txs[..|txs| - 1])) + added
  {
    added := if Accepts(kind, txs[|txs| - 1]) then multiset{txs[|txs| - 1]} else multiset{};
  }

  /** What the last transaction adds to the fund movement group. */
  lemma MovementsStep(txs: seq<Transaction>) returns (added: multiset<Transaction>)
    requires |txs| > 0
    ensures added == if txs[|txs| - 1].Credit? || txs[|txs| - 1].Debit? then multiset{txs[|txs| - 1]} else multiset{}
    ensures multiset(Movements(txs)) == multiset(Movements(txs[..|txs| - 1])) + added
  {
    added := if txs[|txs| - 1].Credit? || txs[|txs| - 1].Debit? then multiset{txs[|txs| - 1]} else multiset{};
  }

  /** The transactions inserted one after another, in their order (the loop
      of `insert_party`). */
  function InsertAll(db: DataBase, txs: seq<Transaction>, partyId: int): (r: DataBase)
    ensures r.parties == db.parties && r.entities == db.entities && r.accounts == db.accounts
  {
    if |txs| == 0 then db
    else InsertTransaction(InsertAll(db, txs[..|txs| - 1], partyId), txs[|txs| - 1], partyId)
  }

  /** `insert_party`: the party's id is the party table's next id, taken
      before anything is inserted; every transaction is stored under it, then
      the party row is appended. */
  function InsertParty(db: DataBase, party: Party): (r: DataBase)
    ensures r.parties == db.parties + [PartyRecord(NextId(PartyIds(db)), party.creationDate)]
    ensures r.entities == db.entities && r.accounts == db.accounts
  {
    var partyId := NextId(PartyIds(db));
    var filled := InsertAll(db, party.transactions, partyId);
    filled.(parties := InsertPartyRow(filled.parties, party.creationDate))
  }

  /** `u` is `t` followed by one row of the party for each transaction of
      `added`, reading back as that transaction. */
  ghost predicate LedgerExtends(kind: LedgerKind, t: seq<LedgerRecord>, u: seq<LedgerRecord>, added: seq<Transaction>, partyId: int)
  {
    && |u| == |t| + |added| && u[..|t|] == t
    && forall i :: |t| <= i < |u| ==> u[i].partyId == partyId && Booked(kind, u[i]) == added[i - |t|]
  }

  /** The same for the fund movement table. */
  ghost predicate FundsExtend(t: seq<FundRecord>, u: seq<FundRecord>, added: seq<Transaction>, partyId: int)
  {
    && |u| == |t| + |added| && u[..|t|] == t
    && forall i :: |t| <= i < |u| ==> u[i].partyId == partyId && Moved(u[i]) == added[i - |t|]
  }

  /** What `insert_party` leaves in a ledger table: the rows before, then
      one row under the party for each transaction of the table's variant,
      in order. */
  lemma {:induction false} LedgerAfterInsertAll(db: DataBase, txs: seq<Transaction>, partyId: int, kind: LedgerKind)
    ensures LedgerExtends(kind, Ledger(db, kind), Ledger(InsertAll(db, txs, partyId), kind), Accepted(kind, txs), partyId)
    ensures Ascending(Ledger(db, kind), LedgerIdOf) ==> Ascending(Ledger(InsertAll(db, txs, partyId), kind), LedgerIdOf)
    decreases |txs|
  {
    if |txs| > 0 {
      var pre := txs[..|txs| - 1];
      var last := txs[|txs| - 1];
      LedgerAfterInsertAll(db, pre, partyId, kind);
      var mid := InsertAll(db, pre, partyId);
      assert InsertAll(db, txs, partyId) == InsertTransaction(mid, last, partyId);
      LedgerExtendStep(kind, Ledger(db, kind), Ledger(mid, kind), Ledger(InsertAll(db, txs, partyId), kind), Accepted(kind, pre), last, partyId);
    } else {
      assert Ledger(db, kind)[..|Ledger(db, kind)|] == Ledger(db, kind);
    }
  }

  /** One transaction more: the extension grows by its row, if any. */
  lemma LedgerExtendStep(kind: LedgerKind, t: seq<LedgerRecord>, m: seq<LedgerRecord>, u: seq<LedgerRecord>, added: seq<Transaction>, last: Transaction, partyId: int)
    requires LedgerExtends(kind, t, m, added, partyId)
    requires LedgerStep(kind, m, u, last, partyId)
    ensures LedgerExtends(kind, t, u, added + (if Accepts(kind, last) then [last] else []), partyId)
    ensures Ascending(m, LedgerIdOf) ==> Ascending(u, LedgerIdOf)
  {
    if Accepts(kind, last) {
      assert u == m + [u[|m|]];
      assert u[..|t|] == m[..|t|];
      forall i | |t| <= i < |u|
        ensures u[i].partyId == partyId && Booked(kind, u[i]) == (added + [last])[i - |t|]
      {
        if i < |m| {
          assert u[i] == m[i];
        }
      }
      if Ascending(m, LedgerIdOf) {
        AscendingAppend(m, LedgerIdOf, u[|m|]);
      }
    } else {
      assert added + [] == added;
    }
  }

  /** What `insert_party` leaves in the fund movement table. */
  lemma {:induction false} FundsAfterInsertAll(db: DataBase, txs: seq<Transaction>, partyId: int)
    ensures FundsExtend(db.funds, InsertAll(db, txs, partyId).funds, Movements(txs), partyId)
    ensures Ascending(db.funds, FundIdOf) ==> Ascending(InsertAll(db, txs, partyId).funds, FundIdOf)
    decreases |txs|
  {
    if |txs| > 0 {
      var pre := txs[..|txs| - 1];
      var last := txs[|txs| - 1];
      FundsAfterInsertAll(db, pre, partyId);
      var mid := InsertAll(db, pre, partyId);
      assert InsertAll(db, txs, partyId) == InsertTransaction(mid, last, partyId);
      FundsExtendStep(db.funds, mid.funds, InsertAll(db, txs, partyId).funds, Movements(pre), last, partyId);
    } else {
      assert db.funds[..|db.funds|] == db.funds;
    }
  }

  lemma FundsExtendStep(t: seq<FundRecord>, m: seq<FundRecord>, u: seq<FundRecord>, added: seq<Transaction>, last: Transaction, partyId: int)
    requires FundsExtend(t, m, added, partyId)
    requires FundStep(m, u, last, partyId)
    ensures FundsExtend(t, u, added + (if last.Credit? || last.Debit? then [last] else []), partyId)
    ensures Ascending(m, FundIdOf) ==> Ascending(u, FundIdOf)
  {
    if last.Credit? || last.Debit? {
      assert u == m + [u[|m|]];
      assert u[..|t|] == m[..|t|];
      forall i | |t| <= i < |u|
        ensures u[i].partyId == partyId && Moved(u[i]) == (added + [last])[i - |t|]
      {
        if i < |m| {
          assert u[i] == m[i];
        }
      }
      if Ascending(m, FundIdOf) {
        AscendingAppend(m, FundIdOf, u[|m|]);
      }
    } else {
      assert added + [] == added;
    }
  }

  // ---------------------------------------------------------------------------
  // delete_party and party
  // ---------------------------------------------------------------------------

  /** `delete_party`: the party's rows leave the income, expense, fund
      movement and party tables; entities and accounts stay. */
  function DeleteParty(db: DataBase, p: int): (r: DataBase)
    ensures forall x :: x in r.incomes <==> x in db.incomes && x.partyId != p
    ensures forall x :: x in r.expenses <==> x in db.expenses && x.partyId != p
    ensures forall x :: x in r.funds <==> x in db.funds && x.partyId != p
    ensures forall x :: x in r.parties <==> x in db.parties && x.id != p
    ensures r.entities == db.entities && r.accounts == db.accounts
  {
    DataBase(
      WithoutParty(db.incomes, LedgerPartyOf, p),
      WithoutParty(db.expenses, LedgerPartyOf, p),
      WithoutParty(db.funds, FundPartyOf, p),
      WithoutParty(db.parties, PartyIdOf, p),
      db.entities,
      db.accounts)
  }

  /** The transactions of a ledger table under the ids given, in their order;
      the first missing id fails the whole read. */
  function ReadLedger(kind: LedgerKind, t: seq<LedgerRecord>, ids: seq<int>): (r: Result<seq<Transaction>, TableError>)
    ensures r.Success? <==> forall j :: 0 <= j < |ids| ==> LedgerTransaction(kind, t, ids[j]).Success?
    ensures r.Success? ==> |r.value| == |ids|
  {
    if |ids| == 0 then Success([])
    else
      var tx :- LedgerTransaction(kind, t, ids[0]);
      var rest :- ReadLedger(kind, t, ids[1..]);
      Success([tx] + rest)
  }

  /** The same for the fund movement table. */
  function ReadFunds(t: seq<FundRecord>, ids: seq<int>): (r: Result<seq<Transaction>, TableError>)
    ensures r.Success? <==> forall j :: 0 <= j < |ids| ==> FundTransaction(t, ids[j]).Success?
    ensures r.Success? ==> |r.value| == |ids|
  {
    if |ids| == 0 then Success([])
    else
      var tx :- FundTransaction(t, ids[0]);
      var rest :- ReadFunds(t, ids[1..]);
      Success([tx] + rest)
  }

  /** `party(p)`: the party's income transactions, then its expenses, then its
      fund movements, each in table order, as a party created `today`. Every
      lookup failing fails the whole read. */
  function PartyOf(db: DataBase, p: int, today: int): (r: Result<Party, TableError>)
    ensures r.Success? ==>
              |r.value.transactions| ==
                |OfParty(db.incomes, LedgerIdOf, LedgerPartyOf, p)| +
                |OfParty(db.expenses, LedgerIdOf, LedgerPartyOf, p)| +
                |OfParty(db.funds, FundIdOf, FundPartyOf, p)|
    ensures r.Success? ==> r.value.creationDate == today
  {
    var incomes :- ReadLedger(IncomeLedger, db.incomes, OfParty(db.incomes, LedgerIdOf, LedgerPartyOf, p));
    var expenses :- ReadLedger(ExpenseLedger, db.expenses, OfParty(db.expenses, LedgerIdOf, LedgerPartyOf, p));
    var funds :- ReadFunds(db.funds, OfParty(db.funds, FundIdOf, FundPartyOf, p));
    Success(Party(incomes + expenses + funds, today))
  }

  /** Every id `iter_party` yields is in its table, so `party(p)` never
      fails, whatever the tables hold. */
  lemma PartyAlwaysReads(db: DataBase, p: int, today: int)
    ensures PartyOf(db, p, today).Success?
  {
    var incomeIds := OfParty(db.incomes, LedgerIdOf, LedgerPartyOf, p);
    var expenseIds := OfParty(db.expenses, LedgerIdOf, LedgerPartyOf, p);
    var fundIds := OfParty(db.funds, FundIdOf, FundPartyOf, p);
    assert forall j :: 0 <= j < |incomeIds| ==> incomeIds[j] in incomeIds;
    assert forall j :: 0 <= j < |expenseIds| ==> expenseIds[j] in expenseIds;
    assert forall j :: 0 <= j < |fundIds| ==> fundIds[j] in fundIds;
  }

  /** On any database keeping the invariant, `party(p)` reads back exactly
      the transactions of p's rows: its incomes, then its expenses, then its
      fund movements, each in table order. */
  lemma PartyReadsRows(db: DataBase, p: int, today: int)
    requires Valid(db)
    ensures PartyOf(db, p, today) ==
      Success(Party(BookedAll(IncomeLedger, RowsOf(db.incomes, LedgerPartyOf, p)) +
                    BookedAll(ExpenseLedger, RowsOf(db.expenses, LedgerPartyOf, p)) +
                    MovedAll(RowsOf(db.funds, FundPartyOf, p)), today))
  {
    OfPartyColumn(db.incomes, LedgerIdOf, LedgerPartyOf, p);
    OfPartyColumn(db.expenses, LedgerIdOf, LedgerPartyOf, p);
    OfPartyColumn(db.funds, FundIdOf, FundPartyOf, p);
    ReadLedgerRows(IncomeLedger, db.incomes, RowsOf(db.incomes, LedgerPartyOf, p));
    ReadLedgerRows(ExpenseLedger, db.expenses, RowsOf(db.expenses, LedgerPartyOf, p));
    ReadFundRows(db.funds, RowsOf(db.funds, FundPartyOf, p));
  }

  /** The transactions the rows of a ledger table read back as. */
  function BookedAll(kind: LedgerKind, rows: seq<LedgerRecord>): (r: seq<Transaction>)
    ensures |r| == |rows| && forall i :: 0 <= i < |rows| ==> r[i] == Booked(kind, rows[i])
  {
    if |rows| == 0 then [] else [Booked(kind, rows[0])] + BookedAll(kind, rows[1..])
  }

  /** The transactions the rows of the fund movement table read back as. */
  function MovedAll(rows: seq<FundRecord>): (r: seq<Transaction>)
    ensures |r| == |rows| && forall i :: 0 <= i < |rows| ==> r[i] == Moved(rows[i])
  {
    if |rows| == 0 then [] else [Moved(rows[0])] + MovedAll(rows[1..])
  }

  /** With ascending ids, reading a table's rows back by their ids gives the
      rows' own transactions. */
  lemma {:induction false} ReadLedgerRows(kind: LedgerKind, t: seq<LedgerRecord>, rows: seq<LedgerRecord>)
    requires Ascending(t, LedgerIdOf)
    requires forall i :: 0 <= i < |rows| ==> rows[i] in t
    ensures ReadLedger(kind, t, Column(rows, LedgerIdOf)) == Success(BookedAll(kind, rows))
    decreases |rows|
  {
    if |rows| > 0 {
      var i :| 0 <= i < |t| && t[i] == rows[0];
      FindAscending(t, LedgerIdOf, i);
      assert Column(rows, LedgerIdOf)[1..] == Column(rows[1..], LedgerIdOf);
      ReadLedgerRows(kind, t, rows[1..]);
    }
  }

  lemma {:induction false} ReadFundRows(t: seq<FundRecord>, rows: seq<FundRecord>)
    requires Ascending(t, FundIdOf)
    requires forall i :: 0 <= i < |rows| ==> rows[i] in t
    ensures ReadFunds(t, Column(rows, FundIdOf)) == Success(MovedAll(rows))
    decreases |rows|
  {
    if |rows| > 0 {
      var i :| 0 <= i < |t| && t[i] == rows[0];
      FindAscending(t, FundIdOf, i);
      assert Column(rows, FundIdOf)[1..] == Column(rows[1..], FundIdOf);
      ReadFundRows(t, rows[1..]);
    }
  }

  /** A party id not yet in the party table has no rows anywhere. */
  lemma FreshPartyHasNoRows(db: DataBase)
    requires Valid(db)
    ensures forall i :: 0 <= i < |db.incomes| ==> db.incomes[i].partyId != NextId(PartyIds(db))
    ensures forall i :: 0 <= i < |db.expenses| ==> db.expenses[i].partyId != NextId(PartyIds(db))
    ensures forall i :: 0 <= i < |db.funds| ==> db.funds[i].partyId != NextId(PartyIds(db))
    ensures forall i :: 0 <= i < |db.parties| ==> db.parties[i].id != NextId(PartyIds(db))
  {
    var ids := PartyIds(db);
    assert forall k :: k in ids ==> k < NextId(ids);
  }

  /** The rows of a party absent from `t` and owning every row appended to
      it are the appended rows. */
  lemma SelectAdded<R(!new)>(t: seq<R>, u: seq<R>, party: R -> int, p: int)
    requires |t| <= |u| && u[..|t|] == t
    requires forall i :: 0 <= i < |t| ==> party(t[i]) != p
    requires forall i :: |t| <= i < |u| ==> party(u[i]) == p
    ensures RowsOf(u, party, p) == u[|t|..]
  {
    var added := u[|t|..];
    assert u == t + added;
    RowsOfAppend(t, added, party, p);
    RowsOfNone(t, party, p);
    assert forall i :: 0 <= i < |added| ==> added[i] == u[|t| + i];
    RowsOfOnly(added, party, p);
  }

  /** Reading back the rows a party appended to a ledger table. */
  lemma LedgerPartRead(kind: LedgerKind, t: seq<LedgerRecord>, u: seq<LedgerRecord>, added: seq<Transaction>, partyId: int)
    requires LedgerExtends(kind, t, u, added, partyId)
    requires Ascending(u, LedgerIdOf)
    requires forall i :: 0 <= i < |t| ==> t[i].partyId != partyId
    ensures ReadLedger(kind, u, OfParty(u, LedgerIdOf, LedgerPartyOf, partyId)) == Success(added)
  {
    var rows := u[|t|..];
    SelectAdded(t, u, LedgerPartyOf, partyId);
    OfPartyColumn(u, LedgerIdOf, LedgerPartyOf, partyId);
    assert forall i :: 0 <= i < |rows| ==> rows[i] == u[|t| + i];
    ReadLedgerRows(kind, u, rows);
    assert BookedAll(kind, rows) == added;
  }

  /** Reading back the rows a party appended to the fund movement table. */
  lemma FundPartRead(t: seq<FundRecord>, u: seq<FundRecord>, added: seq<Transaction>, partyId: int)
    requires FundsExtend(t, u, added, partyId)
    requires Ascending(u, FundIdOf)
    requires forall i :: 0 <= i < |t| ==> t[i].partyId != partyId
    ensures ReadFunds(u, OfParty(u, FundIdOf, FundPartyOf, partyId)) == Success(added)
  {
    var rows := u[|t|..];
    SelectAdded(t, u, FundPartyOf, partyId);
    OfPartyColumn(u, FundIdOf, FundPartyOf, partyId);
    assert forall i :: 0 <= i < |rows| ==> rows[i] == u[|t| + i];
    ReadFundRows(u, rows);
    assert MovedAll(rows) == added;
  }

  /** Reading back one ledger table's part of a freshly inserted party. */
  lemma LedgerPartRoundTrip(db: DataBase, txs: seq<Transaction>, partyId: int, kind: LedgerKind)
    requires Ascending(Ledger(db, kind), LedgerIdOf)
    requires forall i :: 0 <= i < |Ledger(db, kind)| ==> Ledger(db, kind)[i].partyId != partyId
    ensures var u := Ledger(InsertAll(db, txs, partyId), kind);
      ReadLedger(kind, u, OfParty(u, LedgerIdOf, LedgerPartyOf, partyId)) == Success(Accepted(kind, txs))
  {
    LedgerAfterInsertAll(db, txs, partyId, kind);
    LedgerPartRead(kind, Ledger(db, kind), Ledger(InsertAll(db, txs, partyId), kind), Accepted(kind, txs), partyId);
  }

  /** Reading back the fund movement part of a freshly inserted party. */
  lemma FundPartRoundTrip(db: DataBase, txs: seq<Transaction>, partyId: int)
    requires Ascending(db.funds, FundIdOf)
    requires forall i :: 0 <= i < |db.funds| ==> db.funds[i].partyId != partyId
    ensures var u := InsertAll(db, txs, partyId).funds;
      ReadFunds(u, OfParty(u, FundIdOf, FundPartyOf, partyId)) == Success(Movements(txs))
  {
    FundsAfterInsertAll(db, txs, partyId);
    FundPartRead(db.funds, InsertAll(db, txs, partyId).funds, Movements(txs), partyId);
  }

  /** `party` after `insert_party` gives back the party's transactions grouped
      by table: incomes, then expenses, then fund movements, each group in
      the order entered. */
  lemma PartyRoundTrip(db: DataBase, party: Party, today: int)
    requires Valid(db)
    ensures PartyOf(InsertParty(db, party), NextId(PartyIds(db)), today) ==
      Success(Party(Grouped(party.transactions), today))
  {
    var partyId := NextId(PartyIds(db));
    var txs := party.transactions;
    FreshPartyHasNoRows(db);
    LedgerPartRoundTrip(db, txs, partyId, IncomeLedger);
    LedgerPartRoundTrip(db, txs, partyId, ExpenseLedger);
    FundPartRoundTrip(db, txs, partyId);
  }

  /** Deleting a party just inserted restores the database. */
  lemma InsertThenDelete(db: DataBase, party: Party)
    requires Valid(db)
    ensures DeleteParty(InsertParty(db, party), NextId(PartyIds(db))) == db
  {
    var partyId := NextId(PartyIds(db));
    var txs := party.transactions;
    var r := InsertParty(db, party);
    FreshPartyHasNoRows(db);
    LedgerAfterInsertAll(db, txs, partyId, IncomeLedger);
    LedgerAfterInsertAll(db, txs, partyId, ExpenseLedger);
    FundsAfterInsertAll(db, txs, partyId);
    DeletesAdded(db.incomes, r.incomes, LedgerPartyOf, partyId);
    DeletesAdded(db.expenses, r.expenses, LedgerPartyOf, partyId);
    DeletesAdded(db.funds, r.funds, FundPartyOf, partyId);
    DeletesAdded(db.parties, r.parties, PartyIdOf, partyId);
  }

  /** Deleting `p` from a table extended by rows of `p` only restores it. */
  lemma DeletesAdded<R(!new)>(t: seq<R>, u: seq<R>, party: R -> int, p: int)
    requires |t| <= |u| && u[..|t|] == t
    requires forall i :: 0 <= i < |t| ==> party(t[i]) != p
    requires forall i :: |t| <= i < |u| ==> party(u[i]) == p
    ensures WithoutParty(u, party, p) == t
  {
    var added := u[|t|..];
    assert u == t + added;
    WithoutPartyAppend(t, added, party, p);
    WithoutAbsentParty(t, party, p);
    WithoutOnlyParty(added, party, p);
  }

  /** After `delete_party(p)`, `party(p)` is empty. */
  lemma PartyAfterDelete(db: DataBase, p: int, today: int)
    ensures PartyOf(DeleteParty(db, p), p, today) == Success(Party([], today))
  {
    var d := DeleteParty(db, p);
    OfPartyAfterDelete(db.incomes, LedgerIdOf, LedgerPartyOf, p);
    OfPartyAfterDelete(db.expenses, LedgerIdOf, LedgerPartyOf, p);
    OfPartyAfterDelete(db.funds, FundIdOf, FundPartyOf, p);
  }

  // ---------------------------------------------------------------------------
  // The invariant
  // ---------------------------------------------------------------------------

  lemma ColumnAppend<R>(t: seq<R>, f: R -> int, x: R)
    ensures Column(t + [x], f) == Column(t, f) + [f(x)]
  {
    assert forall i :: 0 <= i < |t| ==> (t + [x])[i] == t[i];
  }

  /** `insert_party` keeps the invariant. */
  lemma InsertPartyValid(db: DataBase, party: Party)
    requires Valid(db)
    ensures Valid(InsertParty(db, party))
  {
    var partyId := NextId(PartyIds(db));
    var txs := party.transactions;
    var r := InsertParty(db, party);
    LedgerAfterInsertAll(db, txs, partyId, IncomeLedger);
    LedgerAfterInsertAll(db, txs, partyId, ExpenseLedger);
    FundsAfterInsertAll(db, txs, partyId);
    var row := PartyRecord(partyId, party.creationDate);
    AscendingAppend(db.parties, PartyIdOf, row);
    ColumnAppend(db.parties, PartyIdOf, row);
    assert PartyIds(r) == PartyIds(db) + [partyId];
    forall i | 0 <= i < |r.incomes|
      ensures r.incomes[i].partyId in PartyIds(r)
    {
      if i < |db.incomes| {
        assert r.incomes[i] == db.incomes[i];
      }
    }
    forall i | 0 <= i < |r.expenses|
      ensures r.expenses[i].partyId in PartyIds(r)
    {
      if i < |db.expenses| {
        assert r.expenses[i] == db.expenses[i];
      }
    }
    forall i | 0 <= i < |r.funds|
      ensures r.funds[i].partyId in PartyIds(r)
    {
      if i < |db.funds| {
        assert r.funds[i] == db.funds[i];
      }
    }
  }

  /** A row's column value is in the column. */
  lemma InColumn<R>(t: seq<R>, f: R -> int, x: R)
    requires x in t
    ensures f(x) in Column(t, f)
  {
    var i :| 0 <= i < |t| && t[i] == x;
    assert Column(t, f)[i] == f(x);
  }

  /** The party of a kept row is kept: it is not the party deleted. */
  lemma KeptParty(db: DataBase, p: int, q: int)
    requires q in PartyIds(db) && q != p
    ensures q in PartyIds(DeleteParty(db, p))
  {
    var j :| 0 <= j < |db.parties| && PartyIds(db)[j] == q;
    var row := db.parties[j];
    assert row in DeleteParty(db, p).parties;
    InColumn(DeleteParty(db, p).parties, PartyIdOf, row);
  }

  /** `delete_party` keeps the invariant. */
  lemma DeletePartyValid(db: DataBase, p: int)
    requires Valid(db)
    ensures Valid(DeleteParty(db, p))
  {
    var r := DeleteParty(db, p);
    WithoutPartyAscending(db.incomes, LedgerIdOf, LedgerPartyOf, p);
    WithoutPartyAscending(db.expenses, LedgerIdOf, LedgerPartyOf, p);
    WithoutPartyAscending(db.funds, FundIdOf, FundPartyOf, p);
    WithoutPartyAscending(db.parties, PartyIdOf, PartyIdOf, p);
    DeleteKeepsIncomeParties(db, p);
    DeleteKeepsExpenseParties(db, p);
    DeleteKeepsFundParties(db, p);
  }

  lemma DeleteKeepsIncomeParties(db: DataBase, p: int)
    requires Valid(db)
    ensures forall i :: 0 <= i < |DeleteParty(db, p).incomes| ==>
      DeleteParty(db, p).incomes[i].partyId in PartyIds(DeleteParty(db, p))
  {
    var r := DeleteParty(db, p);
    forall i | 0 <= i < |r.incomes|
      ensures r.incomes[i].partyId in PartyIds(r)
    {
      assert r.incomes[i] in db.incomes;
      var j :| 0 <= j < |db.incomes| && db.incomes[j] == r.incomes[i];
      KeptParty(db, p, r.incomes[i].partyId);
    }
  }

  lemma DeleteKeepsExpenseParties(db: DataBase, p: int)
    requires Valid(db)
    ensures forall i :: 0 <= i < |DeleteParty(db, p).expenses| ==>
      DeleteParty(db, p).expenses[i].partyId in PartyIds(DeleteParty(db, p))
  {
    var r := DeleteParty(db, p);
    forall i | 0 <= i < |r.expenses|
      ensures r.expenses[i].partyId in PartyIds(r)
    {
      assert r.expenses[i] in db.expenses;
      var j :| 0 <= j < |db.expenses| && db.expenses[j] == r.expenses[i];
      KeptParty(db, p, r.expenses[i].partyId);
    }
  }

  lemma DeleteKeepsFundParties(db: DataBase, p: int)
    requires Valid(db)
    ensures forall i :: 0 <= i < |DeleteParty(db, p).funds| ==>
      DeleteParty(db, p).funds[i].partyId in PartyIds(DeleteParty(db, p))
  {
    var r := DeleteParty(db, p);
    forall i | 0 <= i < |r.funds|
      ensures r.funds[i].partyId in PartyIds(r)
    {
      assert r.funds[i] in db.funds;
      var j :| 0 <= j < |db.funds| && db.funds[j] == r.funds[i];
      KeptParty(db, p, r.funds[i].partyId);
    }
  }
}
