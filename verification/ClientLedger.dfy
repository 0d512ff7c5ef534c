/** A client's prepaid balance (packages/core/usecase/client.usecase.ts over the client_balances
    queries of database/queries/client.sql). Amounts count 10^-6 of the currency. */
module ClientLedger {
  datatype Kind = Added | Deducted | Reserved | Released | ReservedDeducted

  /** One audit entry, written also when the guarded query changed nothing. */
  datatype Entry = Entry(kind: Kind, amount: int)

  datatype Balance = Balance(available: int, reserved: int)

  datatype Row = NoRow | HasRow(balance: Balance)

  datatype Ledger = Ledger(row: Row, audit: seq<Entry>)

  datatype Error = BalanceNotFound | InsufficientFunds | CheckViolated

  datatype Reply = Done | Thrown(error: Error)

  datatype Op = Op(kind: Kind, amount: int)

  /** The schema's CHECK on a balance row. */
  predicate Allowed(b: Balance) { b.available >= 0 && b.reserved >= 0 }

  /** What the query of an operation writes. */
  function Moved(b: Balance, op: Op): Balance {
    match op.kind
    case Added => b.(available := b.available + op.amount)
    case Deducted => b.(available := b.available - op.amount)
    case Reserved => Balance(b.available - op.amount, b.reserved + op.amount)
    case Released => Balance(b.available + op.amount, b.reserved - op.amount)
    case ReservedDeducted => b.(reserved := b.reserved - op.amount)
  }

  /** The WHERE clause of the query: a row that does not match is silently left alone. */
  predicate Matches(b: Balance, op: Op) {
    match op.kind
    case Added => true
    case Deducted => b.available >= op.amount
    case Reserved => b.available >= op.amount
    case Released => b.reserved >= op.amount
    case ReservedDeducted => b.reserved >= op.amount
  }

  function Query(row: Row, op: Op): (Row, Reply) {
    if row.NoRow? || !Matches(row.balance, op) then (row, Done)
    else if !Allowed(Moved(row.balance, op)) then (row, Thrown(CheckViolated))
    else (HasRow(Moved(row.balance, op)), Done)
  }

  /** What the use case checks before it runs the query. */
  function Checked(row: Row, op: Op): Reply {
    match op.kind
    case Added => if row.NoRow? then Thrown(BalanceNotFound) else Done
    case Deducted => CheckFunds(row, op.amount)
    case Reserved => CheckFunds(row, op.amount)
    case Released => Done
    case ReservedDeducted => Done
  }

  function CheckFunds(row: Row, amount: int): Reply {
    if row.NoRow? then Thrown(BalanceNotFound)
    else if row.balance.available < amount then Thrown(InsufficientFunds)
    else Done
  }

  function Apply(ledger: Ledger, op: Op): (Ledger, Reply) {
    var checked := Checked(ledger.row, op);
    if checked != Done then (ledger, checked) else
    var (row, reply) := Query(ledger.row, op);
    if reply != Done then (ledger, reply)
    else (Ledger(row, ledger.audit + [Entry(op.kind, op.amount)]), Done)
  }

  ghost function Run(ledger: Ledger, ops: seq<Op>): Ledger {
    if ops == [] then ledger else Apply(Run(ledger, ops[..|ops| - 1]), ops[|ops| - 1]).0
  }

  class ClientUsecase {
    var row: Row
    var audit: seq<Entry>

    function State(): Ledger
      reads this
    {
      Ledger(row, audit)
    }

    constructor (row: Row)
      ensures State() == Ledger(row, [])
    {
      this.row, audit := row, [];
    }

    method AddFunds(amount: int) returns (reply: Reply)
      modifies this
      ensures (State(), reply) == Apply(old(State()), Op(Added, amount))
    {
      if row.NoRow? { return Thrown(BalanceNotFound); }
      var b := row.balance;
      if b.available + amount < 0 || b.reserved < 0 { return Thrown(CheckViolated); }
      row := HasRow(Balance(b.available + amount, b.reserved));
      audit := audit + [Entry(Added, amount)];
      return Done;
    }

    method DeductFunds(amount: int) returns (reply: Reply)
      modifies this
      ensures (State(), reply) == Apply(old(State()), Op(Deducted, amount))
    {
      if row.NoRow? { return Thrown(BalanceNotFound); }
      var b := row.balance;
      if b.available < amount { return Thrown(InsufficientFunds); }
      if b.reserved < 0 { return Thrown(CheckViolated); }
      row := HasRow(Balance(b.available - amount, b.reserved));
      audit := audit + [Entry(Deducted, amount)];
      return Done;
    }

    method ReserveFunds(amount: int) returns (reply: Reply)
      modifies this
      ensures (State(), reply) == Apply(old(State()), Op(Reserved, amount))
    {
      if row.NoRow? { return Thrown(BalanceNotFound); }
      var b := row.balance;
      if b.available < amount { return Thrown(InsufficientFunds); }
      if b.reserved + amount < 0 { return Thrown(CheckViolated); }
      row := HasRow(Balance(b.available - amount, b.reserved + amount));
      audit := audit + [Entry(Reserved, amount)];
      return Done;
    }

    /** No check before the query: releasing more than is reserved changes nothing and is logged. */
    method ReleaseFunds(amount: int) returns (reply: Reply)
      modifies this
      ensures (State(), reply) == Apply(old(State()), Op(Released, amount))
    {
      if row.HasRow? && row.balance.reserved >= amount {
        var b := row.balance;
        if b.available + amount < 0 { return Thrown(CheckViolated); }
        row := HasRow(Balance(b.available + amount, b.reserved - amount));
      }
      audit := audit + [Entry(Released, amount)];
      return Done;
    }

    method DeductReserved(amount: int) returns (reply: Reply)
      modifies this
      ensures (State(), reply) == Apply(old(State()), Op(ReservedDeducted, amount))
    {
      if row.HasRow? && row.balance.reserved >= amount {
        var b := row.balance;
        if b.available < 0 { return Thrown(CheckViolated); }
        row := HasRow(Balance(b.available, b.reserved - amount));
      }
      audit := audit + [Entry(ReservedDeducted, amount)];
      return Done;
    }
  }

  ghost predicate NonNegative(ledger: Ledger) { ledger.row.HasRow? ==> Allowed(ledger.row.balance) }

  /** Money in the ledger, available or reserved. */
  function Holdings(ledger: Ledger): int {
    if ledger.row.NoRow? then 0 else ledger.row.balance.available + ledger.row.balance.reserved
  }

  /** What an operation of this kind adds to the holdings when it moves money. */
  function Effect(kind: Kind, amount: int): int {
    match kind
    case Added => amount
    case Deducted => -amount
    case ReservedDeducted => -amount
    case _ => 0
  }

  /** The net of the audit trail, as if every entry had moved its money. */
  ghost function AuditNet(audit: seq<Entry>): int {
    if audit == [] then 0 else
    AuditNet(audit[..|audit| - 1]) + Effect(audit[|audit| - 1].kind, audit[|audit| - 1].amount)
  }

  /** Deductions from the reserve in a run that were logged but that the query left alone. */
  ghost function Unfunded(ledger: Ledger, ops: seq<Op>): int {
    if ops == [] then 0 else
    var before, op := Run(ledger, ops[..|ops| - 1]), ops[|ops| - 1];
    Unfunded(ledger, ops[..|ops| - 1])
    + if op.kind == ReservedDeducted && (before.row.NoRow? || before.row.balance.reserved < op.amount)
      then op.amount else 0
  }

  lemma AuditNetAppend(audit: seq<Entry>, entry: Entry)
    ensures AuditNet(audit + [entry]) == AuditNet(audit) + Effect(entry.kind, entry.amount)
  {
    assert (audit + [entry])[..|audit|] == audit;
  }

  lemma ApplyEffect(ledger: Ledger, op: Op)
    requires NonNegative(ledger)
    ensures var after := Apply(ledger, op).0;
            NonNegative(after)
            && Holdings(after) - Holdings(ledger) == AuditNet(after.audit) - AuditNet(ledger.audit)
               + if op.kind == ReservedDeducted && (ledger.row.NoRow? || ledger.row.balance.reserved < op.amount)
                 then op.amount else 0
  {
    var after := Apply(ledger, op).0;
    if after != ledger {
      assert after.audit == ledger.audit + [Entry(op.kind, op.amount)];
      AuditNetAppend(ledger.audit, Entry(op.kind, op.amount));
      assert AuditNet(after.audit) - AuditNet(ledger.audit) == Effect(op.kind, op.amount);
      QueryEffect(ledger.row, op);
    }
  }

  lemma QueryEffect(row: Row, op: Op)
    requires row.HasRow? ==> Allowed(row.balance)
    ensures var after := Query(row, op).0;
            (after.HasRow? ==> Allowed(after.balance)) && (after.HasRow? <==> row.HasRow?)
            && (row.HasRow? ==>
                  after.balance.available + after.balance.reserved
                  == row.balance.available + row.balance.reserved
                     + if after == row then 0 else Effect(op.kind, op.amount))
  {
  }

  /** Over every run, with amounts of any sign, no balance goes negative, and the holdings are what
      the audit trail adds up to plus the deductions it logged in vain. */
  lemma {:induction false} HoldingsFollowAudit(ledger: Ledger, ops: seq<Op>)
    requires NonNegative(ledger)
    ensures var after := Run(ledger, ops);
            NonNegative(after)
            && Holdings(after) - Holdings(ledger)
               == AuditNet(after.audit) - AuditNet(ledger.audit) + Unfunded(ledger, ops)
  {
    if ops != [] {
      HoldingsFollowAudit(ledger, ops[..|ops| - 1]);
      ApplyEffect(Run(ledger, ops[..|ops| - 1]), ops[|ops| - 1]);
    }
  }

  /** When an operation goes through for a client with a balance row, and what it then moves on which side: a
      reservation moves available money to the reserve, a release moves it back, and each deduction takes it
      from one side; the two that check nothing leave an uncovered request alone. */
  lemma SidesMove(b: Balance, audit: seq<Entry>, op: Op)
    requires Allowed(b)
    ensures var (after, reply) := Apply(Ledger(HasRow(b), audit), op);
            && after.row.HasRow?
            && var available, reserved := after.row.balance.available - b.available,
                                          after.row.balance.reserved - b.reserved;
               && (reply == Thrown(InsufficientFunds) <==> op.kind in {Deducted, Reserved} && b.available < op.amount)
               && reply != Thrown(BalanceNotFound)
               && (reply != Done ==> available == reserved == 0 && after.audit == audit)
               && (reply == Done ==> after.audit == audit + [Entry(op.kind, op.amount)])
               && (op.kind == Added ==> (reply == Done <==> b.available + op.amount >= 0))
               && (op.kind == Deducted ==> (reply == Done <==> op.amount <= b.available))
               && (op.kind == Reserved ==>
                     (reply == Done <==> op.amount <= b.available && b.reserved + op.amount >= 0))
               && (op.kind == Released ==> (reply == Done <==> b.reserved < op.amount || b.available + op.amount >= 0))
               && (op.kind == ReservedDeducted ==> reply == Done)
               && (reply == Done ==>
                     var covered := op.amount <= b.reserved;
                     && available + (if op.kind in {Deducted, Reserved} then op.amount else 0)
                        == (if op.kind == Added || (op.kind == Released && covered) then op.amount else 0)
                     && reserved + (if op.kind in {Released, ReservedDeducted} && covered then op.amount else 0)
                        == (if op.kind == Reserved then op.amount else 0))
  {
  }

  /** Without a balance row nothing moves: the checked operations throw, the others are logged. */
  lemma NothingToMove(audit: seq<Entry>, op: Op)
    ensures Apply(Ledger(NoRow, audit), op)
         == if op.kind in {Added, Deducted, Reserved} then (Ledger(NoRow, audit), Thrown(BalanceNotFound))
            else (Ledger(NoRow, audit + [Entry(op.kind, op.amount)]), Done)
  {
  }

  /** What the entries of an audit trail say was moved into available money, and into the reserve. */
  ghost function AvailableNet(audit: seq<Entry>): int {
    if audit == [] then 0 else
    var e := audit[|audit| - 1];
    AvailableNet(audit[..|audit| - 1])
    + match e.kind
      case Added => e.amount
      case Released => e.amount
      case ReservedDeducted => 0
      case _ => -e.amount
  }

  ghost function ReservedNet(audit: seq<Entry>): int {
    if audit == [] then 0 else
    var e := audit[|audit| - 1];
    ReservedNet(audit[..|audit| - 1])
    + match e.kind
      case Reserved => e.amount
      case Released => -e.amount
      case ReservedDeducted => -e.amount
      case _ => 0
  }

  /** What a run released, or deducted from the reserve, only on paper. */
  ghost function InVain(ledger: Ledger, ops: seq<Op>, kind: Kind): int {
    if ops == [] then 0 else
    var before, op := Run(ledger, ops[..|ops| - 1]), ops[|ops| - 1];
    InVain(ledger, ops[..|ops| - 1], kind)
    + if op.kind == kind && (before.row.NoRow? || before.row.balance.reserved < op.amount) then op.amount else 0
  }

  /** Over every run each side of the balance is what the audit trail says of it, but for what was released
      in vain, which never left the reserve, and what was deducted from it in vain. */
  lemma {:induction false} EachSideFollowsAudit(ledger: Ledger, ops: seq<Op>)
    requires NonNegative(ledger) && ledger.row.HasRow?
    ensures var after := Run(ledger, ops);
            && NonNegative(after) && after.row.HasRow?
            && after.row.balance.available - ledger.row.balance.available
               == AvailableNet(after.audit) - AvailableNet(ledger.audit) - InVain(ledger, ops, Released)
            && after.row.balance.reserved - ledger.row.balance.reserved
               == ReservedNet(after.audit) - ReservedNet(ledger.audit)
                  + InVain(ledger, ops, Released) + InVain(ledger, ops, ReservedDeducted)
  {
    if ops != [] {
      var before, op := Run(ledger, ops[..|ops| - 1]), ops[|ops| - 1];
      EachSideFollowsAudit(ledger, ops[..|ops| - 1]);
      SidesMove(before.row.balance, before.audit, op);
      assert before == Ledger(HasRow(before.row.balance), before.audit);
      NetsAppend(before.audit, Entry(op.kind, op.amount));
      HoldingsFollowAudit(ledger, ops);
      hide Apply;
    }
  }

  lemma NetsAppend(audit: seq<Entry>, e: Entry)
    ensures AvailableNet(audit + [e]) - AvailableNet(audit)
         == match e.kind
            case Added => e.amount
            case Released => e.amount
            case ReservedDeducted => 0
            case _ => -e.amount
    ensures ReservedNet(audit + [e]) - ReservedNet(audit)
         == match e.kind
            case Reserved => e.amount
            case Released => -e.amount
            case ReservedDeducted => -e.amount
            case _ => 0
  {
    assert (audit + [e])[..|audit|] == audit;
  }

  /** No deduction from the reserve asks for more than is there. */
  ghost predicate Funded(ledger: Ledger, ops: seq<Op>) {
    forall k :: 0 <= k < |ops| && ops[k].kind == ReservedDeducted ==>
      var before := Run(ledger, ops[..k]);
      before.row.HasRow? && ops[k].amount <= before.row.balance.reserved
  }

  /** All that a run asks to deduct from the reserve. */
  ghost function Asked(ops: seq<Op>): int {
    if ops == [] then 0 else
    var op := ops[|ops| - 1];
    Asked(ops[..|ops| - 1]) + if op.kind == ReservedDeducted then op.amount else 0
  }

  /** A client that has a balance row keeps it; one that has none gets none from these operations, and all
      it asks to deduct is logged in vain. */
  lemma {:induction false} UnfundedExactly(ledger: Ledger, ops: seq<Op>)
    requires NonNegative(ledger)
    ensures Run(ledger, ops).row.HasRow? <==> ledger.row.HasRow?
    ensures ledger.row.NoRow? ==> Unfunded(ledger, ops) == Asked(ops)
    ensures ledger.row.HasRow? ==> Unfunded(ledger, ops) >= 0 && (Unfunded(ledger, ops) == 0 <==> Funded(ledger, ops))
  {
    if ops != [] {
      var prefix, op := ops[..|ops| - 1], ops[|ops| - 1];
      UnfundedExactly(ledger, prefix);
      HoldingsFollowAudit(ledger, prefix);
      FundedStep(ledger, ops);
      ApplyKeepsRow(Run(ledger, prefix), op);
      hide Apply, Funded;
    }
  }

  lemma ApplyKeepsRow(ledger: Ledger, op: Op)
    ensures Apply(ledger, op).0.row.HasRow? <==> ledger.row.HasRow?
  {
  }

  lemma FundedStep(ledger: Ledger, ops: seq<Op>)
    requires ops != []
    ensures var prefix, op := ops[..|ops| - 1], ops[|ops| - 1];
            Funded(ledger, ops) <==>
              (Funded(ledger, prefix)
               && (op.kind == ReservedDeducted ==>
                     Run(ledger, prefix).row.HasRow? && op.amount <= Run(ledger, prefix).row.balance.reserved))
  {
    hide Run;
    var n, prefix := |ops|, ops[..|ops| - 1];
    assert forall k :: 0 <= k < n - 1 ==> prefix[..k] == ops[..k] && prefix[k] == ops[k];
  }

  /** The audit trail and the ledger agree on the client's money exactly when every deduction from the
      reserve was covered by it or, for a client without a balance row, when those asked for cancel out. */
  lemma AuditIsHonest(ledger: Ledger, ops: seq<Op>)
    requires NonNegative(ledger)
    ensures var after := Run(ledger, ops);
            Holdings(after) - Holdings(ledger) == AuditNet(after.audit) - AuditNet(ledger.audit)
            <==> if ledger.row.HasRow? then Funded(ledger, ops) else Asked(ops) == 0
  {
    HoldingsFollowAudit(ledger, ops);
    UnfundedExactly(ledger, ops);
  }

  /** Reserving and releasing the same amount restores the balance. */
  lemma ReserveThenRelease(ledger: Ledger, amount: int)
    requires NonNegative(ledger) && Apply(ledger, Op(Reserved, amount)).1 == Done
    ensures var after := Apply(Apply(ledger, Op(Reserved, amount)).0, Op(Released, amount));
            after.1 == Done && after.0.row == ledger.row
  {
  }

  /** Deducting one unit from an empty reserve moves nothing and is logged. */
  lemma DeductedInVain()
    ensures var ledger := Ledger(HasRow(Balance(5, 0)), []);
            Run(ledger, [Op(ReservedDeducted, 1)]) == Ledger(HasRow(Balance(5, 0)), [Entry(ReservedDeducted, 1)])
  {
    var ledger := Ledger(HasRow(Balance(5, 0)), []);
    assert [Op(ReservedDeducted, 1)][..0] == [];
    assert Run(ledger, []) == ledger;
  }
}
