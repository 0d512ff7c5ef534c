/** Rows of client_vaults and the queries that write them (database/queries/vault.sql).
    The CHECK constraints of the schema make a query throw and leave its row as it was. */
module VaultRows {
  import opened Numbers

  datatype Option<+T> = None | Some(value: T)

  /** Balances in base units; cumulativeYield counts units of its 18th decimal place. */
  datatype VaultRecord = VaultRecord(
    currentIndex: nat,
    totalShares: nat,
    pendingDeposits: nat,
    totalStaked: nat,
    cumulativeYield: nat)

  type VaultRow = r: VaultRecord | r.currentIndex >= PRECISION witness VaultRecord(PRECISION, 0, 0, 0, 0)

  /** One whole unit of cumulativeYield, and 10^-6 of it. */
  const YIELD_UNIT: nat := 1_000_000_000_000_000_000
  const YIELD_MICRO: nat := 1_000_000_000_000

  const EMPTY_VAULT: VaultRow := VaultRecord(PRECISION, 0, 0, 0, 0)

  /** UpdateClientVaultIndex: sets the index and the staked balance, and ADDS to the yield. */
  function UpdateClientVaultIndex(row: VaultRow, index: int, addedYield: int, staked: int): Option<VaultRow> {
    if index < PRECISION || row.cumulativeYield + addedYield < 0 || staked < 0 then None
    else Some(row.(currentIndex := index,
                   cumulativeYield := row.cumulativeYield + addedYield,
                   totalStaked := staked))
  }

  function AddPending(row: VaultRow, amount: nat): VaultRow {
    row.(pendingDeposits := row.pendingDeposits + amount)
  }

  function ReducePending(row: VaultRow, amount: nat): Option<VaultRow> {
    if row.pendingDeposits < amount then None
    else Some(row.(pendingDeposits := row.pendingDeposits - amount))
  }

  function MovePendingToStaked(row: VaultRow, amount: nat): Option<VaultRow> {
    if row.pendingDeposits < amount then None
    else Some(row.(pendingDeposits := row.pendingDeposits - amount, totalStaked := row.totalStaked + amount))
  }

  /** ReduceStakedBalance: a withdrawal takes its amount and its shares together. */
  function ReduceStaked(row: VaultRow, amount: nat, shares: nat): Option<VaultRow> {
    if row.totalStaked < amount || row.totalShares < shares then None
    else Some(row.(totalStaked := row.totalStaked - amount, totalShares := row.totalShares - shares))
  }

  /** (S - k) * I <= T * P: but for one share a withdrawal, the stake covers the shares. */
  ghost predicate Solvent(row: VaultRow, withdrawals: nat) {
    (row.totalShares - withdrawals) * row.currentIndex <= row.totalStaked * PRECISION
  }

  /** UpdateVaultOnChainBalances: sets the staked balance and adds to the yield. */
  function UpdateOnChainBalances(row: VaultRow, staked: nat, addedYield: nat): VaultRow {
    row.(totalStaked := staked, cumulativeYield := row.cumulativeYield + addedYield)
  }

  /** When the index grows no faster than the stake but for half a unit times `half`, so does the debt. */
  lemma GrowthKeepsSolvent(s: nat, i: nat, t: nat, j: nat, c: nat, debt: nat, half: nat)
    requires t > 0 && s * i <= t * PRECISION + debt && 2 * (j * t) <= 2 * (i * c) + half * t
    ensures 2 * (s * j) <= 2 * (c * PRECISION + CeilDiv(debt * c, t)) + half * s
  {
    var more := CeilDiv(debt * c, t);
    MulMono(2 * (j * t), 2 * (i * c) + half * t, s);
    MulMono(s * i, t * PRECISION + debt, c);
    ScaledSides(s, i, t, j, c, debt, half, more, PRECISION);
    MulCancel(2 * (s * j), 2 * (c * PRECISION + more) + half * s, t);
  }

  lemma ScaledSides(s: nat, i: nat, t: nat, j: nat, c: nat, debt: nat, half: nat, more: nat, p: nat)
    ensures (2 * (j * t)) * s == (2 * (s * j)) * t
    ensures (2 * (i * c) + half * t) * s == 2 * ((s * i) * c) + (half * s) * t
    ensures (t * p + debt) * c == (c * p) * t + debt * c
    ensures (2 * (c * p + more) + half * s) * t == 2 * ((c * p) * t + more * t) + (half * s) * t
  {
  }

  lemma NoGrowthOfDebt(s: nat, i: nat, t: nat, j: nat, c: nat)
    requires t > 0 && s * i <= t * PRECISION && j * t <= i * c
    ensures s * j <= c * PRECISION
  {
    GrowthKeepsSolvent(s, i, t, j, c, 0, 0);
    assert CeilDiv(0, t) == 0;
  }
}

/** Jobs that walk a list of row ids and go on when one row fails. */
module RowBatches {
  import opened VaultRows

  /** What one update does to the table: a throwing update leaves it unchanged. */
  function UpdateOne<K, V>(rows: map<K, V>, id: K, lone: (K, V) -> Option<V>): map<K, V> {
    if id !in rows then rows
    else match lone(id, rows[id])
      case Some(row) => rows[id := row]
      case None => rows
  }

  function UpdateEach<K, V>(rows: map<K, V>, ids: seq<K>, lone: (K, V) -> Option<V>): map<K, V> {
    if ids == [] then rows
    else UpdateOne(UpdateEach(rows, ids[..|ids| - 1], lone), ids[|ids| - 1], lone)
  }

  ghost predicate Distinct<T>(s: seq<T>) {
    forall i, j :: 0 <= i < j < |s| ==> s[i] != s[j]
  }

  /** In a batch without repeats each row ends as its own update alone would leave it:
      a row whose update throws, or that is not listed, is untouched by the others. */
  lemma {:induction false} Isolation<K, V>(rows: map<K, V>, ids: seq<K>, lone: (K, V) -> Option<V>)
    requires Distinct(ids)
    ensures UpdateEach(rows, ids, lone).Keys == rows.Keys
    ensures forall k <- rows ::
              UpdateEach(rows, ids, lone)[k] == if k in ids then UpdateOne(rows, k, lone)[k] else rows[k]
  {
    if ids != [] {
      var n := |ids|;
      assert ids == ids[..n - 1] + [ids[n - 1]];
      Isolation(rows, ids[..n - 1], lone);
    }
  }
}
