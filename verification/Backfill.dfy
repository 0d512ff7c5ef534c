/** Backfilling on-chain transfers into the transaction table (apps/b2b-api/src/scripts/backfill-transactions.ts).
    Addresses are lower-cased, as the script compares them. */
module Backfill {
  import opened VaultRows
  import opened BalanceVerifier

  datatype Log = Log(block: nat, txHash: string, from: string, to: string, value: nat)

  /** The chain as seen by the node: the USDC transfers of every block. */
  type Chain = seq<seq<Log>>

  datatype Direction = Outgoing | Incoming

  datatype Vault = Vault(id: string, client: string, wallet: string)

  datatype Record = Record(client: string, vaultId: string, txHash: string, block: nat,
                           operation: Direction, protocol: Protocol, amount: nat)

  const LOOKBACK_BLOCKS: nat := 43_200

  function FromBlock(currentBlock: nat): nat {
    if currentBlock > LOOKBACK_BLOCKS then currentBlock - LOOKBACK_BLOCKS else 0
  }

  predicate Concerns(log: Log, wallet: string, direction: Direction) {
    match direction
    case Outgoing => log.from == wallet
    case Incoming => log.to == wallet
  }

  function Matching(logs: seq<Log>, wallet: string, direction: Direction): seq<Log> {
    if logs == [] then []
    else Matching(logs[..|logs| - 1], wallet, direction)
         + if Concerns(logs[|logs| - 1], wallet, direction) then [logs[|logs| - 1]] else []
  }

  /** One getLogs request: the wallet's transfers in the blocks from lo to hi, in chain order. */
  function GetLogs(chain: Chain, wallet: string, direction: Direction, lo: nat, hi: int): seq<Log>
    requires hi < |chain|
    decreases hi - lo
  {
    if hi < lo then [] else GetLogs(chain, wallet, direction, lo, hi - 1) + Matching(chain[hi], wallet, direction)
  }

  /** The script looks back over the head and the 43200 blocks before it. */
  lemma WindowExactly(head: nat, block: nat)
    requires block <= head
    ensures FromBlock(head) <= block <==> head - block <= 43_200
    ensures FromBlock(head) <= head
  {
  }

  /** A transfer out of the wallet, or into it, of one block of the range. */
  ghost predicate InRange(chain: Chain, wallet: string, direction: Direction, lo: nat, hi: int, log: Log, block: nat)
    requires hi < |chain|
  {
    && lo <= block <= hi && log in chain[block]
    && (direction == Outgoing ==> log.from == wallet)
    && (direction == Incoming ==> log.to == wallet)
  }

  /** A request returns the wallet's transfers of the range and no others. */
  lemma {:induction false} GetLogsExactly(chain: Chain, wallet: string, direction: Direction, lo: nat, hi: int,
                                          log: Log)
    requires hi < |chain|
    ensures log in GetLogs(chain, wallet, direction, lo, hi)
       <==> exists block: nat :: InRange(chain, wallet, direction, lo, hi, log, block)
    decreases hi - lo
  {
    if lo <= hi {
      var earlier := hi - 1;
      GetLogsExactly(chain, wallet, direction, lo, earlier, log);
      MatchingExactly(chain[hi], wallet, direction, log);
      RangeStep(chain, wallet, direction, lo, hi, earlier, log);
      hide InRange, Matching;
    }
  }

  lemma RangeStep(chain: Chain, wallet: string, direction: Direction, lo: nat, hi: nat, earlier: int, log: Log)
    requires lo <= hi < |chain| && earlier == hi - 1
    ensures (exists block: nat :: InRange(chain, wallet, direction, lo, hi, log, block))
       <==> (exists block: nat :: InRange(chain, wallet, direction, lo, earlier, log, block))
            || (log in chain[hi] && Concerns(log, wallet, direction))
  {
    if block: nat :| InRange(chain, wallet, direction, lo, earlier, log, block) {
      assert InRange(chain, wallet, direction, lo, hi, log, block);
    }
    if block: nat :| InRange(chain, wallet, direction, lo, hi, log, block) {
      assert block == hi || InRange(chain, wallet, direction, lo, earlier, log, block);
    }
    assert log in chain[hi] && Concerns(log, wallet, direction) ==> InRange(chain, wallet, direction, lo, hi, log, hi);
  }

  lemma {:induction false} MatchingExactly(logs: seq<Log>, wallet: string, direction: Direction, log: Log)
    ensures log in Matching(logs, wallet, direction) <==> log in logs && Concerns(log, wallet, direction)
  {
    if logs != [] {
      assert logs == logs[..|logs| - 1] + [logs[|logs| - 1]];
      MatchingExactly(logs[..|logs| - 1], wallet, direction, log);
    }
  }

  /** Two adjacent ranges scanned one after the other are the whole range. */
  lemma {:induction false} AdjacentRanges(chain: Chain, wallet: string, direction: Direction, lo: nat, mid: int,
                                          hi: int)
    requires lo - 1 <= mid <= hi < |chain|
    ensures GetLogs(chain, wallet, direction, lo, mid) + GetLogs(chain, wallet, direction, mid + 1, hi)
         == GetLogs(chain, wallet, direction, lo, hi)
    decreases hi - mid
  {
    if mid < hi {
      AdjacentRanges(chain, wallet, direction, lo, mid, hi - 1);
    }
  }

  /** Consecutive block ranges, each at most `size` blocks, that begin at lo and end before `next`. */
  ghost predicate Tiles(chunks: seq<(nat, nat)>, lo: nat, next: nat, size: nat) {
    if chunks == [] then lo == next
    else
      var last := chunks[|chunks| - 1];
      last.0 <= last.1 < last.0 + size && last.1 + 1 == next && Tiles(chunks[..|chunks| - 1], lo, last.0, size)
  }

  /** Chunks follow one another without touching, and stay in the range. */
  lemma {:induction false} TilesInOrder(chunks: seq<(nat, nat)>, lo: nat, next: nat, size: nat)
    requires Tiles(chunks, lo, next, size)
    ensures lo <= next
    ensures forall k :: 0 <= k < |chunks| ==> lo <= chunks[k].0 <= chunks[k].1 < next
    ensures forall j, k :: 0 <= j < k < |chunks| ==> chunks[j].1 < chunks[k].0
  {
    if chunks != [] {
      var n := |chunks|;
      TilesInOrder(chunks[..n - 1], lo, chunks[n - 1].0, size);
      assert forall k :: 0 <= k < n - 1 ==> chunks[k] == chunks[..n - 1][k];
    }
  }

  ghost predicate InChunk(chunks: seq<(nat, nat)>, k: nat, block: nat) {
    k < |chunks| && chunks[k].0 <= block <= chunks[k].1
  }

  /** Every block of the range is scanned in exactly one chunk, and no other block in any. */
  lemma {:induction false} TilesCoverOnce(chunks: seq<(nat, nat)>, lo: nat, next: nat, size: nat, block: nat)
    requires Tiles(chunks, lo, next, size)
    ensures lo <= block < next <==> exists k :: InChunk(chunks, k, block)
    ensures forall j, k :: InChunk(chunks, j, block) && InChunk(chunks, k, block) ==> j == k
  {
    TilesInOrder(chunks, lo, next, size);
    if chunks != [] && lo <= block < next {
      var n := |chunks|;
      if block < chunks[n - 1].0 {
        TilesCoverOnce(chunks[..n - 1], lo, chunks[n - 1].0, size, block);
        var k :| InChunk(chunks[..n - 1], k, block);
        assert InChunk(chunks, k, block);
      } else {
        assert InChunk(chunks, n - 1, block);
      }
    }
  }

  /** The chunked scan returns what one scan of the whole range would. */
  method ScanInChunks(chain: Chain, wallet: string, direction: Direction, fromBlock: nat, currentBlock: nat,
                      chunkSize: nat)
    returns (logs: seq<Log>, ghost chunks: seq<(nat, nat)>)
    requires fromBlock <= currentBlock < |chain| && chunkSize > 0
    ensures logs == GetLogs(chain, wallet, direction, fromBlock, currentBlock)
    ensures Tiles(chunks, fromBlock, currentBlock + 1, chunkSize)
  {
    logs, chunks := [], [];
    assert GetLogs(chain, wallet, direction, fromBlock, fromBlock - 1) == [];
    hide GetLogs;
    var start := fromBlock;
    ghost var scanned := fromBlock;
    while start <= currentBlock
      invariant scanned == if start <= currentBlock then start else currentBlock + 1
      invariant logs == GetLogs(chain, wallet, direction, fromBlock, scanned - 1)
      invariant fromBlock <= scanned
      invariant Tiles(chunks, fromBlock, scanned, chunkSize)
      decreases currentBlock + 1 - scanned
    {
      var end := if start + chunkSize - 1 > currentBlock then currentBlock else start + chunkSize - 1;
      var chunk := GetLogs(chain, wallet, direction, start, end);
      AdjacentRanges(chain, wallet, direction, fromBlock, start - 1, end);
      logs := logs + chunk;
      assert (chunks + [(start, end)])[..|chunks|] == chunks;
      chunks := chunks + [(start, end)];
      scanned := end + 1;
      start := start + chunkSize;
    }
  }

  // ---- storing the transfers ----

  function ProtocolOf(address: string): Option<Protocol> {
    match address
    case "0xa238dd80c259a72e81d7e4664a9801593f98d1c5" => Some(Aave)
    case "0xb125e6687d4313864e53df431d5425969c15eb2f" => Some(Compound)
    case "0x618495ccc4e751178c4914b1e939c0fe0fb07b9b" => Some(Morpho)
    case _ => None
  }

  function Counterparty(log: Log, direction: Direction): string {
    match direction
    case Outgoing => log.to
    case Incoming => log.from
  }

  /** The record of a transfer to or from a known protocol. */
  function RecordOf(log: Log, vault: Vault, direction: Direction): Option<Record> {
    match ProtocolOf(Counterparty(log, direction))
    case None => None
    case Some(protocol) =>
      Some(Record(vault.client, vault.id, log.txHash, log.block, direction, protocol, log.value))
  }

  ghost predicate Knows(table: seq<Record>, txHash: string) {
    exists k :: 0 <= k < |table| && table[k].txHash == txHash
  }

  /** The table after the logs; at the positions in `failing` the existence check throws, which the
      script logs and ignores. */
  ghost function Stored(table: seq<Record>, vault: Vault, direction: Direction, logs: seq<Log>, failing: set<nat>)
    : seq<Record>
  {
    if logs == [] then table else
    var before, i := Stored(table, vault, direction, logs[..|logs| - 1], failing), |logs| - 1;
    var record := RecordOf(logs[i], vault, direction);
    if record.None? || (i !in failing && Knows(before, logs[i].txHash)) then before
    else before + [record.value]
  }

  /** The transfer at position i adds a record. */
  ghost predicate Inserts(table: seq<Record>, vault: Vault, direction: Direction, logs: seq<Log>, failing: set<nat>,
                          i: nat)
    requires i < |logs|
  {
    Stored(table, vault, direction, logs[..i + 1], failing) != Stored(table, vault, direction, logs[..i], failing)
  }

  /** None of the first n transfers adds a record where doing so fails. */
  ghost predicate Undisturbed(table: seq<Record>, vault: Vault, direction: Direction, logs: seq<Log>,
                              failing: set<nat>, aborting: set<nat>, n: nat)
  {
    forall i :: 0 <= i < n && i < |logs| && i in aborting ==> !Inserts(table, vault, direction, logs, failing, i)
  }

  lemma UndisturbedStep(table: seq<Record>, vault: Vault, direction: Direction, logs: seq<Log>, failing: set<nat>,
                        aborting: set<nat>, i: nat)
    requires i < |logs|
    ensures Undisturbed(table, vault, direction, logs, failing, aborting, i + 1)
       <==> Undisturbed(table, vault, direction, logs, failing, aborting, i)
            && (i in aborting ==> !Inserts(table, vault, direction, logs, failing, i))
  {
    hide Inserts;
  }

  lemma StoredStep(table: seq<Record>, vault: Vault, direction: Direction, logs: seq<Log>, failing: set<nat>, i: nat)
    requires i < |logs|
    ensures var before := Stored(table, vault, direction, logs[..i], failing);
            var record := RecordOf(logs[i], vault, direction);
            Stored(table, vault, direction, logs[..i + 1], failing)
            == (if record.None? || (i !in failing && Knows(before, logs[i].txHash)) then before
                else before + [record.value])
            && (Inserts(table, vault, direction, logs, failing, i)
                <==> record.Some? && (i in failing || !Knows(before, logs[i].txHash)))
  {
    hide Knows, RecordOf;
    assert logs[..i + 1][..i] == logs[..i];
  }

  /** The logs at which a record of the given transaction could be stored. */
  ghost predicate Mentions(logs: seq<Log>, vault: Vault, direction: Direction, txHash: string) {
    exists i :: 0 <= i < |logs| && logs[i].txHash == txHash && RecordOf(logs[i], vault, direction).Some?
  }

  /** Whatever checks fail, the old records stay in place and exactly the transactions of the logs are
      added to those known. */
  lemma {:induction false} StoredKnows(table: seq<Record>, vault: Vault, direction: Direction, logs: seq<Log>,
                                       failing: set<nat>)
    ensures table <= Stored(table, vault, direction, logs, failing)
    ensures forall txHash :: Knows(Stored(table, vault, direction, logs, failing), txHash)
              <==> Knows(table, txHash) || Mentions(logs, vault, direction, txHash)
  {
    if logs != [] {
      var i := |logs| - 1;
      var before := Stored(table, vault, direction, logs[..i], failing);
      StoredKnows(table, vault, direction, logs[..i], failing);
      forall txHash
        ensures Mentions(logs, vault, direction, txHash) <==>
          (Mentions(logs[..i], vault, direction, txHash)
           || (logs[i].txHash == txHash && RecordOf(logs[i], vault, direction).Some?))
      {
        MentionsStep(logs, vault, direction, txHash);
      }
      forall record: Record, txHash
        ensures Knows(before + [record], txHash) <==> Knows(before, txHash) || record.txHash == txHash
      {
        KnowsStep(before, record, txHash);
      }
    }
  }

  lemma MentionsStep(logs: seq<Log>, vault: Vault, direction: Direction, txHash: string)
    requires logs != []
    ensures var i := |logs| - 1;
            Mentions(logs, vault, direction, txHash) <==>
              (Mentions(logs[..i], vault, direction, txHash)
               || (logs[i].txHash == txHash && RecordOf(logs[i], vault, direction).Some?))
  {
    hide RecordOf;
    var i := |logs| - 1;
    if Mentions(logs[..i], vault, direction, txHash) {
      var j :| 0 <= j < i && logs[..i][j].txHash == txHash && RecordOf(logs[..i][j], vault, direction).Some?;
      assert logs[j] == logs[..i][j];
    }
    if Mentions(logs, vault, direction, txHash) {
      var j :| 0 <= j < |logs| && logs[j].txHash == txHash && RecordOf(logs[j], vault, direction).Some?;
      if j < i { assert logs[..i][j] == logs[j]; }
    }
  }

  lemma KnowsStep(table: seq<Record>, record: Record, txHash: string)
    ensures Knows(table + [record], txHash) <==> Knows(table, txHash) || record.txHash == txHash
  {
    if Knows(table, txHash) {
      var k :| 0 <= k < |table| && table[k].txHash == txHash;
      assert (table + [record])[k] == table[k];
    }
    assert (table + [record])[|table|] == record;
  }

  ghost predicate HashesDistinct(table: seq<Record>) {
    forall j, k :: 0 <= j < k < |table| ==> table[j].txHash != table[k].txHash
  }

  lemma DistinctStep(table: seq<Record>, record: Record)
    ensures HashesDistinct(table + [record]) <==> HashesDistinct(table) && !Knows(table, record.txHash)
  {
    var longer := table + [record];
    assert longer[|table|] == record;
    assert forall k :: 0 <= k < |table| ==> longer[k] == table[k];
  }

  /** A failed check does harm only on a transaction that is already stored. */
  ghost predicate HarmlessAt(table: seq<Record>, vault: Vault, direction: Direction, logs: seq<Log>,
                             failing: set<nat>, i: nat)
    requires i < |logs|
  {
    (i in failing && RecordOf(logs[i], vault, direction).Some?) ==>
      !Knows(Stored(table, vault, direction, logs[..i], failing), logs[i].txHash)
  }

  ghost predicate Harmless(table: seq<Record>, vault: Vault, direction: Direction, logs: seq<Log>, failing: set<nat>) {
    forall i :: 0 <= i < |logs| ==> HarmlessAt(table, vault, direction, logs, failing, i)
  }

  lemma HarmlessStep(table: seq<Record>, vault: Vault, direction: Direction, logs: seq<Log>, failing: set<nat>)
    requires logs != []
    ensures Harmless(table, vault, direction, logs, failing) <==>
      (Harmless(table, vault, direction, logs[..|logs| - 1], failing)
       && HarmlessAt(table, vault, direction, logs, failing, |logs| - 1))
  {
    hide Stored, Knows, RecordOf;
    var prefix := logs[..|logs| - 1];
    forall j | 0 <= j < |prefix|
      ensures HarmlessAt(table, vault, direction, logs, failing, j)
         <==> HarmlessAt(table, vault, direction, prefix, failing, j)
    {
      assert logs[..j] == prefix[..j] && logs[j] == prefix[j];
    }
  }

  /** A loop stores no transaction twice exactly when no check failed on one that was already there. */
  lemma {:induction false} NoDuplicatesExactly(table: seq<Record>, vault: Vault, direction: Direction,
                                               logs: seq<Log>, failing: set<nat>)
    ensures HashesDistinct(Stored(table, vault, direction, logs, failing))
      <==> HashesDistinct(table) && Harmless(table, vault, direction, logs, failing)
  {
    if logs != [] {
      var i := |logs| - 1;
      var before := Stored(table, vault, direction, logs[..i], failing);
      NoDuplicatesExactly(table, vault, direction, logs[..i], failing);
      HarmlessStep(table, vault, direction, logs, failing);
      var record := RecordOf(logs[i], vault, direction);
      if record.Some? { DistinctStep(before, record.value); }
    }
  }

  /** One transaction with two transfers to a protocol is stored twice when the second check throws. */
  lemma FailedCheckDuplicates(vault: Vault, log: Log)
    requires RecordOf(log, vault, Outgoing).Some?
    ensures !HashesDistinct(Stored([], vault, Outgoing, [log, log], {1}))
  {
    var logs := [log, log];
    assert logs[..1] == [log] && logs[..2] == logs;
    hide RecordOf;
    StoredStep([], vault, Outgoing, logs, {1}, 0);
    StoredStep([], vault, Outgoing, logs, {1}, 1);
    hide Stored;
    NoDuplicatesExactly([], vault, Outgoing, logs, {1});
    StoredKnows([], vault, Outgoing, logs[..1], {1});
    assert logs[..1][0].txHash == log.txHash && RecordOf(logs[..1][0], vault, Outgoing).Some?;
    assert Mentions(logs[..1], vault, Outgoing, log.txHash);
    assert !HarmlessAt([], vault, Outgoing, logs, {1}, 1);
  }

  /** One record per transaction: with working checks a transfer adds a record exactly when it touches a
      protocol and no earlier one of the same transaction was stored. Further transfers of a
      transaction are dropped. */
  lemma RecordedExactly(table: seq<Record>, vault: Vault, direction: Direction, logs: seq<Log>, log: Log)
    ensures var before := Stored(table, vault, direction, logs, {});
            var record := RecordOf(log, vault, direction);
            if record.Some? && !Knows(table, log.txHash) && !Mentions(logs, vault, direction, log.txHash)
            then Stored(table, vault, direction, logs + [log], {}) == before + [record.value]
            else Stored(table, vault, direction, logs + [log], {}) == before
  {
    assert (logs + [log])[..|logs|] == logs;
    StoredKnows(table, vault, direction, logs, {});
  }

  lemma {:induction false} KnownLogsAddNothing(table: seq<Record>, vault: Vault, direction: Direction, logs: seq<Log>)
    requires forall txHash :: Mentions(logs, vault, direction, txHash) ==> Knows(table, txHash)
    ensures Stored(table, vault, direction, logs, {}) == table
  {
    if logs != [] {
      var i := |logs| - 1;
      forall txHash | Mentions(logs[..i], vault, direction, txHash) ensures Knows(table, txHash) {
        MentionsStep(logs, vault, direction, txHash);
      }
      KnownLogsAddNothing(table, vault, direction, logs[..i]);
      if RecordOf(logs[i], vault, direction).Some? { assert Mentions(logs, vault, direction, logs[i].txHash); }
    }
  }

  // ---- the whole script ----

  /** Which existence checks throw, by vault and direction. */
  type Failures = (string, Direction) -> set<nat>

  /** One vault: first the transfers out of its wallet, then those into it. */
  ghost function VaultDone(table: seq<Record>, vault: Vault, chain: Chain, lo: nat, hi: nat, failing: Failures)
    : seq<Record>
    requires hi < |chain|
  {
    var outLogs := GetLogs(chain, vault.wallet, Outgoing, lo, hi);
    var out := Stored(table, vault, Outgoing, outLogs, failing(vault.id, Outgoing));
    Stored(out, vault, Incoming, GetLogs(chain, vault.wallet, Incoming, lo, hi), failing(vault.id, Incoming))
  }

  ghost function AllDone(table: seq<Record>, vaults: seq<Vault>, chain: Chain, lo: nat, hi: nat,
                         failing: Failures): seq<Record>
    requires hi < |chain|
  {
    if vaults == [] then table
    else
      var before := AllDone(table, vaults[..|vaults| - 1], chain, lo, hi, failing);
      VaultDone(before, vaults[|vaults| - 1], chain, lo, hi, failing)
  }

  class BackfillScript {
    var table: seq<Record>

    constructor (table: seq<Record>)
      ensures this.table == table
    {
      this.table := table;
    }

    method Exists(txHash: string) returns (found: bool)
      ensures found <==> Knows(table, txHash)
    {
      for k := 0 to |table|
        invariant forall j :: 0 <= j < k ==> table[j].txHash != txHash
      {
        if table[k].txHash == txHash { return true; }
      }
      return false;
    }

    /** A block lookup or an insert that fails, at a position in `aborting`, ends the script there. */
    method StoreLogs(vault: Vault, direction: Direction, logs: seq<Log>, failing: set<nat>, aborting: set<nat>)
      returns (stored: nat)
      modifies this
      ensures stored <= |logs| && table == Stored(old(table), vault, direction, logs[..stored], failing)
      ensures stored < |logs| ==>
                stored in aborting && Inserts(old(table), vault, direction, logs, failing, stored)
      ensures Undisturbed(old(table), vault, direction, logs, failing, aborting, stored)
    {
      ghost var before := table;
      assert table == Stored(before, vault, direction, logs[..0], failing);
      assert Undisturbed(before, vault, direction, logs, failing, aborting, 0);
      hide Stored, RecordOf, Knows, Inserts, Undisturbed;
      for i := 0 to |logs|
        invariant table == Stored(before, vault, direction, logs[..i], failing)
        invariant Undisturbed(before, vault, direction, logs, failing, aborting, i)
      {
        StoredStep(before, vault, direction, logs, failing, i);
        UndisturbedStep(before, vault, direction, logs, failing, aborting, i);
        var record := RecordOf(logs[i], vault, direction);
        if record.None? { continue; }
        if i !in failing {
          var existing := Exists(logs[i].txHash);
          if existing { continue; }
        }
        if i in aborting { return i; }
        table := table + [record.value];
      }
      return |logs|;
    }

    method Run(vaults: seq<Vault>, chain: Chain, chunkSize: nat, failing: Failures, aborting: Failures)
      returns (ending: Ending)
      requires chain != [] && chunkSize > 0
      modifies this
      ensures ending.StoppedAt? ==>
                && IsPosition(ending, vaults, chain, FromBlock(|chain| - 1), |chain| - 1)
                && ending.stored in aborting(vaults[ending.vault].id, ending.direction)
      ensures table == Reached(old(table), vaults, chain, FromBlock(|chain| - 1), |chain| - 1, failing, ending)
    {
      var currentBlock := |chain| - 1;
      var fromBlock := FromBlock(currentBlock);
      for i := 0 to |vaults|
        invariant table == AllDone(old(table), vaults[..i], chain, fromBlock, currentBlock, failing)
      {
        assert vaults[..i + 1][..i] == vaults[..i];
        var vault := vaults[i];
        var depositLogs, _ := ScanInChunks(chain, vault.wallet, Outgoing, fromBlock, currentBlock, chunkSize);
        var stored :=
          StoreLogs(vault, Outgoing, depositLogs, failing(vault.id, Outgoing), aborting(vault.id, Outgoing));
        if stored < |depositLogs| { return StoppedAt(i, Outgoing, stored); }
        assert depositLogs[..stored] == depositLogs;
        var withdrawalLogs, _ := ScanInChunks(chain, vault.wallet, Incoming, fromBlock, currentBlock, chunkSize);
        stored := StoreLogs(vault, Incoming, withdrawalLogs, failing(vault.id, Incoming), aborting(vault.id, Incoming));
        if stored < |withdrawalLogs| { return StoppedAt(i, Incoming, stored); }
        assert withdrawalLogs[..stored] == withdrawalLogs;
      }
      assert vaults[..|vaults|] == vaults;
      return Finished;
    }
  }

  /** Where a run ends: after the last vault, or at a transfer of one vault it could not store. */
  datatype Ending = Finished | StoppedAt(vault: nat, direction: Direction, stored: nat)

  ghost predicate IsPosition(ending: Ending, vaults: seq<Vault>, chain: Chain, lo: nat, hi: nat)
    requires hi < |chain| && ending.StoppedAt?
  {
    && ending.vault < |vaults|
    && ending.stored < |GetLogs(chain, vaults[ending.vault].wallet, ending.direction, lo, hi)|
  }

  /** One vault of which only the first n transfers of a direction were looked at, and of the directions
      before it all. */
  ghost function Halted(table: seq<Record>, vault: Vault, chain: Chain, lo: nat, hi: nat, failing: Failures,
                        direction: Direction, n: nat): seq<Record>
    requires hi < |chain| && n <= |GetLogs(chain, vault.wallet, direction, lo, hi)|
  {
    match direction
    case Outgoing =>
      Stored(table, vault, Outgoing, GetLogs(chain, vault.wallet, Outgoing, lo, hi)[..n], failing(vault.id, Outgoing))
    case Incoming =>
      var outLogs := GetLogs(chain, vault.wallet, Outgoing, lo, hi);
      Stored(Stored(table, vault, Outgoing, outLogs, failing(vault.id, Outgoing)), vault, Incoming,
             GetLogs(chain, vault.wallet, Incoming, lo, hi)[..n], failing(vault.id, Incoming))
  }

  /** The table a run leaves. */
  ghost function Reached(table: seq<Record>, vaults: seq<Vault>, chain: Chain, lo: nat, hi: nat, failing: Failures,
                         ending: Ending): seq<Record>
    requires hi < |chain| && (ending.StoppedAt? ==> IsPosition(ending, vaults, chain, lo, hi))
  {
    if ending.Finished? then AllDone(table, vaults, chain, lo, hi, failing)
    else Halted(AllDone(table, vaults[..ending.vault], chain, lo, hi, failing), vaults[ending.vault], chain, lo, hi,
                failing, ending.direction, ending.stored)
  }

  ghost predicate ChecksWork(failing: Failures) {
    forall id, direction :: failing(id, direction) == {}
  }

  /** All protocol transfers of a vault are known. */
  ghost predicate Covered(table: seq<Record>, vault: Vault, chain: Chain, lo: nat, hi: nat)
    requires hi < |chain|
  {
    forall direction, txHash ::
      Mentions(GetLogs(chain, vault.wallet, direction, lo, hi), vault, direction, txHash) ==> Knows(table, txHash)
  }

  lemma VaultDoneCovers(table: seq<Record>, vault: Vault, chain: Chain, lo: nat, hi: nat, failing: Failures)
    requires hi < |chain|
    ensures var after := VaultDone(table, vault, chain, lo, hi, failing);
            Covered(after, vault, chain, lo, hi) && forall txHash :: Knows(table, txHash) ==> Knows(after, txHash)
  {
    var outLogs := GetLogs(chain, vault.wallet, Outgoing, lo, hi);
    var inLogs := GetLogs(chain, vault.wallet, Incoming, lo, hi);
    var out := Stored(table, vault, Outgoing, outLogs, failing(vault.id, Outgoing));
    StoredKnows(table, vault, Outgoing, outLogs, failing(vault.id, Outgoing));
    StoredKnows(out, vault, Incoming, inLogs, failing(vault.id, Incoming));
    var after := VaultDone(table, vault, chain, lo, hi, failing);
    forall direction, txHash | Mentions(GetLogs(chain, vault.wallet, direction, lo, hi), vault, direction, txHash)
      ensures Knows(after, txHash)
    {
      match direction case Outgoing => case Incoming =>
    }
  }

  lemma CoveredGrows(table: seq<Record>, more: seq<Record>, vault: Vault, chain: Chain, lo: nat, hi: nat)
    requires hi < |chain| && Covered(table, vault, chain, lo, hi)
    requires forall txHash :: Knows(table, txHash) ==> Knows(more, txHash)
    ensures Covered(more, vault, chain, lo, hi)
  {
  }

  lemma {:induction false} AllDoneCovers(table: seq<Record>, vaults: seq<Vault>, chain: Chain, lo: nat, hi: nat,
                                         failing: Failures)
    requires hi < |chain|
    ensures var after := AllDone(table, vaults, chain, lo, hi, failing);
            forall k :: 0 <= k < |vaults| ==> Covered(after, vaults[k], chain, lo, hi)
  {
    hide Covered, VaultDone;
    if vaults != [] {
      var prefix, last := vaults[..|vaults| - 1], vaults[|vaults| - 1];
      var before := AllDone(table, prefix, chain, lo, hi, failing);
      var after := VaultDone(before, last, chain, lo, hi, failing);
      AllDoneCovers(table, prefix, chain, lo, hi, failing);
      VaultDoneCovers(before, last, chain, lo, hi, failing);
      forall k | 0 <= k < |vaults| ensures Covered(after, vaults[k], chain, lo, hi) {
        if k < |prefix| {
          assert prefix[k] == vaults[k];
          CoveredGrows(before, after, vaults[k], chain, lo, hi);
        }
      }
    }
  }

  lemma {:induction false} CoveredVaultsAddNothing(table: seq<Record>, vaults: seq<Vault>, chain: Chain, lo: nat,
                                                   hi: nat, failing: Failures)
    requires hi < |chain| && ChecksWork(failing)
    requires forall k :: 0 <= k < |vaults| ==> Covered(table, vaults[k], chain, lo, hi)
    ensures AllDone(table, vaults, chain, lo, hi, failing) == table
  {
    if vaults != [] {
      var vault := vaults[|vaults| - 1];
      CoveredVaultsAddNothing(table, vaults[..|vaults| - 1], chain, lo, hi, failing);
      assert Covered(table, vault, chain, lo, hi);
      KnownLogsAddNothing(table, vault, Outgoing, GetLogs(chain, vault.wallet, Outgoing, lo, hi));
      KnownLogsAddNothing(table, vault, Incoming, GetLogs(chain, vault.wallet, Incoming, lo, hi));
    }
  }

  /** A second run over the same range adds nothing, even to a first run whose checks had failed. */
  lemma SecondRunAddsNothing(table: seq<Record>, vaults: seq<Vault>, chain: Chain, lo: nat, hi: nat,
                             first: Failures, second: Failures)
    requires hi < |chain| && ChecksWork(second)
    ensures var once := AllDone(table, vaults, chain, lo, hi, first);
            AllDone(once, vaults, chain, lo, hi, second) == once
  {
    AllDoneCovers(table, vaults, chain, lo, hi, first);
    CoveredVaultsAddNothing(AllDone(table, vaults, chain, lo, hi, first), vaults, chain, lo, hi, second);
  }

  /** No check of a vault failed on a transaction that was already there. */
  ghost predicate VaultHarmless(table: seq<Record>, vault: Vault, chain: Chain, lo: nat, hi: nat, failing: Failures)
    requires hi < |chain|
  {
    var outLogs := GetLogs(chain, vault.wallet, Outgoing, lo, hi);
    var out := Stored(table, vault, Outgoing, outLogs, failing(vault.id, Outgoing));
    && Harmless(table, vault, Outgoing, outLogs, failing(vault.id, Outgoing))
    && Harmless(out, vault, Incoming, GetLogs(chain, vault.wallet, Incoming, lo, hi), failing(vault.id, Incoming))
  }

  ghost predicate HarmlessFor(table: seq<Record>, vaults: seq<Vault>, k: nat, chain: Chain, lo: nat, hi: nat,
                              failing: Failures)
    requires hi < |chain| && k < |vaults|
  {
    VaultHarmless(AllDone(table, vaults[..k], chain, lo, hi, failing), vaults[k], chain, lo, hi, failing)
  }

  lemma VaultDistinctExactly(table: seq<Record>, vault: Vault, chain: Chain, lo: nat, hi: nat, failing: Failures)
    requires hi < |chain|
    ensures HashesDistinct(VaultDone(table, vault, chain, lo, hi, failing))
       <==> HashesDistinct(table) && VaultHarmless(table, vault, chain, lo, hi, failing)
  {
    var outLogs := GetLogs(chain, vault.wallet, Outgoing, lo, hi);
    var out := Stored(table, vault, Outgoing, outLogs, failing(vault.id, Outgoing));
    hide GetLogs, Stored, HashesDistinct, Harmless;
    NoDuplicatesExactly(table, vault, Outgoing, outLogs, failing(vault.id, Outgoing));
    NoDuplicatesExactly(out, vault, Incoming, GetLogs(chain, vault.wallet, Incoming, lo, hi),
      failing(vault.id, Incoming));
  }

  /** A whole run stores no transaction twice exactly when no vault's check failed on one that was there. */
  lemma {:induction false} RunDistinctExactly(table: seq<Record>, vaults: seq<Vault>, chain: Chain, lo: nat,
                                              hi: nat, failing: Failures)
    requires hi < |chain|
    ensures HashesDistinct(AllDone(table, vaults, chain, lo, hi, failing)) <==>
              HashesDistinct(table)
              && forall k :: 0 <= k < |vaults| ==> HarmlessFor(table, vaults, k, chain, lo, hi, failing)
  {
    hide HashesDistinct, VaultDone, VaultHarmless;
    if vaults != [] {
      var n := |vaults| - 1;
      var prefix := vaults[..n];
      RunDistinctExactly(table, prefix, chain, lo, hi, failing);
      VaultDistinctExactly(AllDone(table, prefix, chain, lo, hi, failing), vaults[n], chain, lo, hi, failing);
      forall k | 0 <= k < n
        ensures HarmlessFor(table, vaults, k, chain, lo, hi, failing)
           <==> HarmlessFor(table, prefix, k, chain, lo, hi, failing)
      {
        assert prefix[..k] == vaults[..k] && prefix[k] == vaults[k];
      }
      assert HarmlessFor(table, vaults, n, chain, lo, hi, failing)
        <==> VaultHarmless(AllDone(table, prefix, chain, lo, hi, failing), vaults[n], chain, lo, hi, failing);
    }
  }

  /** With working checks a whole run stores no transaction twice. */
  lemma RunKeepsHashesDistinct(table: seq<Record>, vaults: seq<Vault>, chain: Chain, lo: nat, hi: nat,
                               failing: Failures)
    requires hi < |chain| && ChecksWork(failing) && HashesDistinct(table)
    ensures HashesDistinct(AllDone(table, vaults, chain, lo, hi, failing))
  {
    RunDistinctExactly(table, vaults, chain, lo, hi, failing);
    hide AllDone, GetLogs, Stored;
  }

  // ---- what the records say ----

  /** The address of a protocol's pool. */
  ghost predicate IsPool(protocol: Protocol, address: string) {
    || (protocol == Aave && address == "0xa238dd80c259a72e81d7e4664a9801593f98d1c5")
    || (protocol == Compound && address == "0xb125e6687d4313864e53df431d5425969c15eb2f")
    || (protocol == Morpho && address == "0x618495ccc4e751178c4914b1e939c0fe0fb07b9b")
  }

  /** A record tells of a transfer between a vault's wallet and a pool: out of the wallet as an outgoing one,
      into it as an incoming one, with the transfer's hash, block and amount. */
  ghost predicate Tells(record: Record, vault: Vault, log: Log) {
    && record.client == vault.client && record.vaultId == vault.id
    && record.txHash == log.txHash && record.block == log.block && record.amount == log.value
    && match record.operation
       case Outgoing => log.from == vault.wallet && IsPool(record.protocol, log.to)
       case Incoming => log.to == vault.wallet && IsPool(record.protocol, log.from)
  }

  lemma RecordTells(vault: Vault, direction: Direction, log: Log, record: Record)
    requires Concerns(log, vault.wallet, direction)
    ensures RecordOf(log, vault, direction) == Some(record)
       <==> Tells(record, vault, log) && record.operation == direction
  {
  }

  /** A record tells of a transfer of one vault in one block of the range. */
  ghost predicate TellsOf(record: Record, vaults: seq<Vault>, chain: Chain, lo: nat, hi: nat, k: nat, block: nat,
                          log: Log)
    requires hi < |chain|
  {
    k < |vaults| && lo <= block <= hi && log in chain[block] && Tells(record, vaults[k], log)
  }

  ghost predicate FromChain(record: Record, vaults: seq<Vault>, chain: Chain, lo: nat, hi: nat)
    requires hi < |chain|
  {
    exists k: nat, block: nat, log :: TellsOf(record, vaults, chain, lo, hi, k, block, log)
  }

  lemma {:induction false} StoredFromLogs(table: seq<Record>, vault: Vault, direction: Direction, logs: seq<Log>,
                                          failing: set<nat>)
    ensures |table| <= |Stored(table, vault, direction, logs, failing)|
    ensures forall r <- Stored(table, vault, direction, logs, failing)[|table|..] ::
              exists log <- logs :: RecordOf(log, vault, direction) == Some(r)
  {
    if logs != [] {
      var before, last := logs[..|logs| - 1], logs[|logs| - 1];
      var stored := Stored(table, vault, direction, before, failing);
      StoredFromLogs(table, vault, direction, before, failing);
      forall r | r in Stored(table, vault, direction, logs, failing)[|table|..]
        ensures exists log <- logs :: RecordOf(log, vault, direction) == Some(r)
      {
        if r in stored[|table|..] {
          var log :| log in before && RecordOf(log, vault, direction) == Some(r);
          assert log in logs;
        } else {
          assert last in logs;
        }
      }
    }
  }

  lemma DirectionFromChain(table: seq<Record>, vaults: seq<Vault>, k: nat, direction: Direction, chain: Chain, lo: nat,
                           hi: nat, failing: set<nat>)
    requires hi < |chain| && k < |vaults|
    ensures var logs := GetLogs(chain, vaults[k].wallet, direction, lo, hi);
            var after := Stored(table, vaults[k], direction, logs, failing);
            |table| <= |after| && forall r <- after[|table|..] :: FromChain(r, vaults, chain, lo, hi)
  {
    var vault := vaults[k];
    var logs := GetLogs(chain, vault.wallet, direction, lo, hi);
    var after := Stored(table, vault, direction, logs, failing);
    StoredFromLogs(table, vault, direction, logs, failing);
    hide Stored, GetLogs, RecordOf, Tells;
    forall r | r in after[|table|..] ensures FromChain(r, vaults, chain, lo, hi) {
      var log :| log in logs && RecordOf(log, vault, direction) == Some(r);
      GetLogsExactly(chain, vault.wallet, direction, lo, hi, log);
      var block: nat :| InRange(chain, vault.wallet, direction, lo, hi, log, block);
      RecordTells(vault, direction, log, r);
      assert TellsOf(r, vaults, chain, lo, hi, k, block, log);
    }
  }

  lemma LaterRecords(table: seq<Record>, before: seq<Record>, after: seq<Record>, vaults: seq<Vault>, chain: Chain,
                     lo: nat, hi: nat)
    requires hi < |chain| && table <= before && before <= after
    requires forall r <- before[|table|..] :: FromChain(r, vaults, chain, lo, hi)
    requires forall r <- after[|before|..] :: FromChain(r, vaults, chain, lo, hi)
    ensures table <= after && forall r <- after[|table|..] :: FromChain(r, vaults, chain, lo, hi)
  {
    hide FromChain;
    assert after == before + after[|before|..];
    assert after[|table|..] == before[|table|..] + after[|before|..];
  }

  /** Whatever checks fail, every record a run adds tells of a transfer of one of its vaults in its range. */
  lemma {:induction false} RecordsTellOfTransfers(table: seq<Record>, vaults: seq<Vault>, chain: Chain, lo: nat,
                                                  hi: nat, failing: Failures)
    requires hi < |chain|
    ensures var after := AllDone(table, vaults, chain, lo, hi, failing);
            table <= after && forall r <- after[|table|..] :: FromChain(r, vaults, chain, lo, hi)
  {
    if vaults != [] {
      var n := |vaults| - 1;
      var vault, before := vaults[n], AllDone(table, vaults[..n], chain, lo, hi, failing);
      var outLogs := GetLogs(chain, vault.wallet, Outgoing, lo, hi);
      var out := Stored(before, vault, Outgoing, outLogs, failing(vault.id, Outgoing));
      var inLogs := GetLogs(chain, vault.wallet, Incoming, lo, hi);
      RecordsTellOfTransfers(table, vaults[..n], chain, lo, hi, failing);
      DirectionFromChain(before, vaults, n, Outgoing, chain, lo, hi, failing(vault.id, Outgoing));
      DirectionFromChain(out, vaults, n, Incoming, chain, lo, hi, failing(vault.id, Incoming));
      StoredKnows(before, vault, Outgoing, outLogs, failing(vault.id, Outgoing));
      StoredKnows(out, vault, Incoming, inLogs, failing(vault.id, Incoming));
      hide Stored, GetLogs, Knows, Mentions;
      forall r | r in before[|table|..] ensures FromChain(r, vaults, chain, lo, hi) {
        FromFewerVaults(r, vaults, n, chain, lo, hi);
      }
      hide FromChain;
      LaterRecords(table, before, out, vaults, chain, lo, hi);
      LaterRecords(table, out, AllDone(table, vaults, chain, lo, hi, failing), vaults, chain, lo, hi);
    }
  }

  lemma FromFewerVaults(record: Record, vaults: seq<Vault>, n: nat, chain: Chain, lo: nat, hi: nat)
    requires hi < |chain| && n <= |vaults| && FromChain(record, vaults[..n], chain, lo, hi)
    ensures FromChain(record, vaults, chain, lo, hi)
  {
    var k: nat, block: nat, log :| TellsOf(record, vaults[..n], chain, lo, hi, k, block, log);
    assert TellsOf(record, vaults, chain, lo, hi, k, block, log);
  }

  // ---- a run that stopped halfway ----

  /** A transaction of a vault's protocol transfers in the range. */
  ghost predicate Moves(vaults: seq<Vault>, chain: Chain, lo: nat, hi: nat, txHash: string)
    requires hi < |chain|
  {
    exists k, direction :: MovesAt(vaults, chain, lo, hi, txHash, k, direction)
  }

  ghost predicate MovesAt(vaults: seq<Vault>, chain: Chain, lo: nat, hi: nat, txHash: string, k: nat,
                          direction: Direction)
    requires hi < |chain|
  {
    && k < |vaults|
    && Mentions(GetLogs(chain, vaults[k].wallet, direction, lo, hi), vaults[k], direction, txHash)
  }

  lemma MovesStep(vaults: seq<Vault>, chain: Chain, lo: nat, hi: nat, txHash: string)
    requires hi < |chain| && vaults != []
    ensures var last := vaults[|vaults| - 1];
            Moves(vaults, chain, lo, hi, txHash) <==>
              Moves(vaults[..|vaults| - 1], chain, lo, hi, txHash)
              || Mentions(GetLogs(chain, last.wallet, Outgoing, lo, hi), last, Outgoing, txHash)
              || Mentions(GetLogs(chain, last.wallet, Incoming, lo, hi), last, Incoming, txHash)
  {
    hide Mentions, GetLogs;
    var prefix, n := vaults[..|vaults| - 1], |vaults| - 1;
    if k: nat, direction :| MovesAt(prefix, chain, lo, hi, txHash, k, direction) {
      assert MovesAt(vaults, chain, lo, hi, txHash, k, direction);
    }
    if direction :| Mentions(GetLogs(chain, vaults[n].wallet, direction, lo, hi), vaults[n], direction, txHash) {
      assert MovesAt(vaults, chain, lo, hi, txHash, n, direction);
    }
    if k: nat, direction :| MovesAt(vaults, chain, lo, hi, txHash, k, direction) {
      if k < n { assert MovesAt(prefix, chain, lo, hi, txHash, k, direction); }
      match direction case Outgoing => case Incoming =>
    }
  }

  /** In the figures of the chain: a transaction moves exactly when one of its transfers, in a block of the
      range, can be told of for one of the vaults. */
  lemma MovesExactly(vaults: seq<Vault>, chain: Chain, lo: nat, hi: nat, txHash: string)
    requires hi < |chain|
    ensures Moves(vaults, chain, lo, hi, txHash)
       <==> exists r: Record :: r.txHash == txHash && FromChain(r, vaults, chain, lo, hi)
  {
    if k: nat, direction :| MovesAt(vaults, chain, lo, hi, txHash, k, direction) {
      var logs := GetLogs(chain, vaults[k].wallet, direction, lo, hi);
      var i :| 0 <= i < |logs| && logs[i].txHash == txHash && RecordOf(logs[i], vaults[k], direction).Some?;
      var log, r := logs[i], RecordOf(logs[i], vaults[k], direction).value;
      hide GetLogs, RecordOf, Tells;
      GetLogsExactly(chain, vaults[k].wallet, direction, lo, hi, log);
      var block: nat :| InRange(chain, vaults[k].wallet, direction, lo, hi, log, block);
      RecordTells(vaults[k], direction, log, r);
      assert TellsOf(r, vaults, chain, lo, hi, k, block, log) by { assert log in logs; }
      TellsItsHash(r, vaults[k], log);
    }
    if r: Record :| r.txHash == txHash && FromChain(r, vaults, chain, lo, hi) {
      var k: nat, block: nat, log :| TellsOf(r, vaults, chain, lo, hi, k, block, log);
      TellsItsHash(r, vaults[k], log);
      hide GetLogs, RecordOf, Tells;
      assert InRange(chain, vaults[k].wallet, r.operation, lo, hi, log, block);
      GetLogsExactly(chain, vaults[k].wallet, r.operation, lo, hi, log);
      RecordTells(vaults[k], r.operation, log, r);
      assert MovesAt(vaults, chain, lo, hi, txHash, k, r.operation);
    }
  }

  lemma TellsItsHash(record: Record, vault: Vault, log: Log)
    requires Tells(record, vault, log)
    ensures record.txHash == log.txHash
    ensures (record.operation == Outgoing ==> log.from == vault.wallet)
            && (record.operation == Incoming ==> log.to == vault.wallet)
  {
  }

  /** Whatever checks fail, a whole run makes known exactly the transactions of its vaults' transfers. */
  lemma {:induction false} AllDoneKnows(table: seq<Record>, vaults: seq<Vault>, chain: Chain, lo: nat, hi: nat,
                                        failing: Failures, txHash: string)
    requires hi < |chain|
    ensures Knows(AllDone(table, vaults, chain, lo, hi, failing), txHash)
       <==> Knows(table, txHash) || Moves(vaults, chain, lo, hi, txHash)
  {
    if vaults != [] {
      var prefix, last := vaults[..|vaults| - 1], vaults[|vaults| - 1];
      AllDoneKnows(table, prefix, chain, lo, hi, failing, txHash);
      MovesStep(vaults, chain, lo, hi, txHash);
      var before := AllDone(table, prefix, chain, lo, hi, failing);
      var outLogs := GetLogs(chain, last.wallet, Outgoing, lo, hi);
      var out := Stored(before, last, Outgoing, outLogs, failing(last.id, Outgoing));
      hide Knows, Mentions, GetLogs, Stored, Moves;
      StoredKnows(before, last, Outgoing, outLogs, failing(last.id, Outgoing));
      StoredKnows(out, last, Incoming, GetLogs(chain, last.wallet, Incoming, lo, hi), failing(last.id, Incoming));
    }
  }

  lemma MentionsPrefix(logs: seq<Log>, n: nat, vault: Vault, direction: Direction, txHash: string)
    requires n <= |logs| && Mentions(logs[..n], vault, direction, txHash)
    ensures Mentions(logs, vault, direction, txHash)
  {
    var i :| 0 <= i < n && logs[..n][i].txHash == txHash && RecordOf(logs[..n][i], vault, direction).Some?;
    assert logs[i] == logs[..n][i];
  }

  lemma {:induction false} MovesPrefix(vaults: seq<Vault>, n: nat, chain: Chain, lo: nat, hi: nat, txHash: string)
    requires hi < |chain| && n <= |vaults| && Moves(vaults[..n], chain, lo, hi, txHash)
    ensures Moves(vaults, chain, lo, hi, txHash)
  {
    var k: nat, direction :| MovesAt(vaults[..n], chain, lo, hi, txHash, k, direction);
    assert MovesAt(vaults, chain, lo, hi, txHash, k, direction);
  }

  lemma HaltedKnows(table: seq<Record>, vault: Vault, chain: Chain, lo: nat, hi: nat, failing: Failures,
                    direction: Direction, n: nat, txHash: string)
    requires hi < |chain| && n <= |GetLogs(chain, vault.wallet, direction, lo, hi)|
    ensures var after := Halted(table, vault, chain, lo, hi, failing, direction, n);
            && (Knows(table, txHash) ==> Knows(after, txHash))
            && (Knows(after, txHash) ==>
                  Knows(table, txHash)
                  || Mentions(GetLogs(chain, vault.wallet, Outgoing, lo, hi), vault, Outgoing, txHash)
                  || Mentions(GetLogs(chain, vault.wallet, Incoming, lo, hi), vault, Incoming, txHash))
  {
    var outLogs := GetLogs(chain, vault.wallet, Outgoing, lo, hi);
    var inLogs := GetLogs(chain, vault.wallet, Incoming, lo, hi);
    hide Knows, Mentions, GetLogs, Stored;
    match direction
    case Outgoing =>
      StoredKnows(table, vault, Outgoing, outLogs[..n], failing(vault.id, Outgoing));
      if Mentions(outLogs[..n], vault, Outgoing, txHash) { MentionsPrefix(outLogs, n, vault, Outgoing, txHash); }
    case Incoming =>
      StoredKnows(table, vault, Outgoing, outLogs, failing(vault.id, Outgoing));
      StoredKnows(Stored(table, vault, Outgoing, outLogs, failing(vault.id, Outgoing)), vault, Incoming, inLogs[..n],
        failing(vault.id, Incoming));
      if Mentions(inLogs[..n], vault, Incoming, txHash) { MentionsPrefix(inLogs, n, vault, Incoming, txHash); }
  }

  /** A run that stopped has lost no record, and knows no transaction but those it was after. */
  lemma ReachedKnows(table: seq<Record>, vaults: seq<Vault>, chain: Chain, lo: nat, hi: nat, failing: Failures,
                     ending: Ending, txHash: string)
    requires hi < |chain| && (ending.StoppedAt? ==> IsPosition(ending, vaults, chain, lo, hi))
    ensures var after := Reached(table, vaults, chain, lo, hi, failing, ending);
            && (Knows(table, txHash) ==> Knows(after, txHash))
            && (Knows(after, txHash) ==> Knows(table, txHash) || Moves(vaults, chain, lo, hi, txHash))
  {
    hide Knows, Mentions, GetLogs, Stored, Moves, AllDone, Halted;
    if ending.Finished? {
      AllDoneKnows(table, vaults, chain, lo, hi, failing, txHash);
    } else {
      var v := ending.vault;
      AllDoneKnows(table, vaults[..v], chain, lo, hi, failing, txHash);
      HaltedKnows(AllDone(table, vaults[..v], chain, lo, hi, failing), vaults[v], chain, lo, hi, failing,
        ending.direction, ending.stored, txHash);
      assert vaults[..v + 1][..v] == vaults[..v];
      MovesStep(vaults[..v + 1], chain, lo, hi, txHash);
      if Moves(vaults[..v + 1], chain, lo, hi, txHash) { MovesPrefix(vaults, v + 1, chain, lo, hi, txHash); }
    }
  }

  /** What a run knew of a range stays as it was when the chain grows. */
  lemma {:induction false} GrowingChain(chain: Chain, newer: Chain, wallet: string, direction: Direction, lo: nat,
                                        hi: int)
    requires hi < |chain|
    ensures GetLogs(chain + newer, wallet, direction, lo, hi) == GetLogs(chain, wallet, direction, lo, hi)
    decreases hi - lo
  {
    if lo <= hi { GrowingChain(chain, newer, wallet, direction, lo, hi - 1); }
  }

  /** After a run stopped anywhere, one over another range makes known exactly what was known and what
      moves in that range: what the first run left out before the new start stays unknown. */
  lemma RerunKnows(table: seq<Record>, vaults: seq<Vault>, chain: Chain, lo: nat, hi: nat, first: Failures,
                   ending: Ending, again: seq<Vault>, from: nat, head: nat, second: Failures, txHash: string)
    requires hi < |chain| && head < |chain| && (ending.StoppedAt? ==> IsPosition(ending, vaults, chain, lo, hi))
    ensures var stopped := Reached(table, vaults, chain, lo, hi, first, ending);
            && (Knows(AllDone(stopped, again, chain, from, head, second), txHash)
                <==> Knows(stopped, txHash) || Moves(again, chain, from, head, txHash))
            && (Knows(AllDone(stopped, again, chain, from, head, second), txHash) ==>
                  Knows(table, txHash) || Moves(vaults, chain, lo, hi, txHash)
                  || Moves(again, chain, from, head, txHash))
  {
    hide Knows, Moves, AllDone, Reached;
    ReachedKnows(table, vaults, chain, lo, hi, first, ending, txHash);
    AllDoneKnows(Reached(table, vaults, chain, lo, hi, first, ending), again, chain, from, head, second, txHash);
  }

  /** The second run misses a transaction that an undisturbed first run would have stored exactly when it
      moves in the first range, was not stored before the stop, and does not move in the second range. */
  lemma LostExactly(table: seq<Record>, vaults: seq<Vault>, chain: Chain, lo: nat, hi: nat, first: Failures,
                    ending: Ending, again: seq<Vault>, from: nat, head: nat, second: Failures, txHash: string)
    requires hi < |chain| && head < |chain| && (ending.StoppedAt? ==> IsPosition(ending, vaults, chain, lo, hi))
    ensures var stopped := Reached(table, vaults, chain, lo, hi, first, ending);
            Knows(AllDone(table, vaults, chain, lo, hi, first), txHash)
            && !Knows(AllDone(stopped, again, chain, from, head, second), txHash)
            <==>
            && Moves(vaults, chain, lo, hi, txHash)
            && !Knows(stopped, txHash)
            && !Moves(again, chain, from, head, txHash)
  {
    hide Knows, Moves, AllDone, Reached;
    AllDoneKnows(table, vaults, chain, lo, hi, first, txHash);
    ReachedKnows(table, vaults, chain, lo, hi, first, ending, txHash);
    RerunKnows(table, vaults, chain, lo, hi, first, ending, again, from, head, second, txHash);
  }

  lemma MentionsInside(outer: seq<Log>, before: seq<Log>, logs: seq<Log>, later: seq<Log>, vault: Vault,
                       direction: Direction, txHash: string)
    requires outer == before + logs + later && Mentions(logs, vault, direction, txHash)
    ensures Mentions(outer, vault, direction, txHash)
  {
    var i :| 0 <= i < |logs| && logs[i].txHash == txHash && RecordOf(logs[i], vault, direction).Some?;
    assert outer[|before| + i] == logs[i];
  }

  /** What moves in a range moves in every wider one. */
  lemma MovesInWider(vaults: seq<Vault>, chain: Chain, lo: nat, hi: nat, from: nat, head: nat, txHash: string)
    requires from <= lo && hi <= head < |chain| && Moves(vaults, chain, lo, hi, txHash)
    ensures Moves(vaults, chain, from, head, txHash)
  {
    var k: nat, direction :| MovesAt(vaults, chain, lo, hi, txHash, k, direction);
    MentionsInWider(vaults[k], chain, direction, lo, hi, from, head, txHash);
    hide GetLogs, Mentions;
    assert MovesAt(vaults, chain, from, head, txHash, k, direction);
  }

  lemma MentionsInWider(vault: Vault, chain: Chain, direction: Direction, lo: nat, hi: nat, from: nat, head: nat,
                        txHash: string)
    requires from <= lo && hi <= head < |chain|
    requires Mentions(GetLogs(chain, vault.wallet, direction, lo, hi), vault, direction, txHash)
    ensures Mentions(GetLogs(chain, vault.wallet, direction, from, head), vault, direction, txHash)
  {
    var wallet := vault.wallet;
    assert lo <= hi;
    hide GetLogs, Mentions;
    AdjacentRanges(chain, wallet, direction, from, lo - 1, hi);
    AdjacentRanges(chain, wallet, direction, from, hi, head);
    MentionsInside(GetLogs(chain, wallet, direction, from, head), GetLogs(chain, wallet, direction, from, lo - 1),
      GetLogs(chain, wallet, direction, lo, hi), GetLogs(chain, wallet, direction, hi + 1, head), vault, direction,
      txHash);
  }

  /** Running the script again over the same range after it stopped anywhere leaves the transactions an
      undisturbed run would have left, no more and no fewer. */
  lemma RerunCatchesUp(table: seq<Record>, vaults: seq<Vault>, chain: Chain, lo: nat, hi: nat, first: Failures,
                       second: Failures, ending: Ending, txHash: string)
    requires hi < |chain| && (ending.StoppedAt? ==> IsPosition(ending, vaults, chain, lo, hi))
    ensures var stopped := Reached(table, vaults, chain, lo, hi, first, ending);
            Knows(AllDone(stopped, vaults, chain, lo, hi, second), txHash)
            <==> Knows(AllDone(table, vaults, chain, lo, hi, second), txHash)
  {
    hide Knows, Moves, AllDone, Reached;
    ReachedKnows(table, vaults, chain, lo, hi, first, ending, txHash);
    RerunKnows(table, vaults, chain, lo, hi, first, ending, vaults, lo, hi, second, txHash);
    AllDoneKnows(table, vaults, chain, lo, hi, second, txHash);
  }

  /** A second run that starts no later than the first, at the same head or a later one, loses nothing
      the first was after. Its start stays put while the head is within the lookback. */
  lemma EarlyRerunLosesNothing(table: seq<Record>, vaults: seq<Vault>, chain: Chain, lo: nat, hi: nat,
                               first: Failures, ending: Ending, from: nat, head: nat, second: Failures,
                               txHash: string)
    requires from <= lo && hi <= head < |chain|
    requires ending.StoppedAt? ==> IsPosition(ending, vaults, chain, lo, hi)
    requires Knows(AllDone(table, vaults, chain, lo, hi, first), txHash)
    ensures Knows(AllDone(Reached(table, vaults, chain, lo, hi, first, ending), vaults, chain, from, head, second),
              txHash)
  {
    hide Knows, Moves, AllDone, Reached;
    AllDoneKnows(table, vaults, chain, lo, hi, first, txHash);
    ReachedKnows(table, vaults, chain, lo, hi, first, ending, txHash);
    RerunKnows(table, vaults, chain, lo, hi, first, ending, vaults, from, head, second, txHash);
    if Moves(vaults, chain, lo, hi, txHash) { MovesInWider(vaults, chain, lo, hi, from, head, txHash); }
  }

  // ---- a transfer the second run starts after ----

  ghost predicate QuietAfter(chain: Chain, block: nat) {
    forall b :: block < b < |chain| ==> chain[b] == []
  }

  lemma {:induction false} QuietRange(chain: Chain, wallet: string, direction: Direction, lo: nat, hi: int)
    requires hi < |chain| && lo > 0 && QuietAfter(chain, 0)
    ensures GetLogs(chain, wallet, direction, lo, hi) == []
    decreases hi - lo
  {
    if lo <= hi { QuietRange(chain, wallet, direction, lo, hi - 1); }
  }

  /** One protocol transfer, in the first block, at which the first run stops: when the head has moved one
      block past the lookback, the second run starts after it and never stores it. */
  lemma LateRerunLosesTransfer(vault: Vault, log: Log, chain: Chain, first: Failures, second: Failures)
    requires RecordOf(log, vault, Outgoing).Some? && log.from == vault.wallet
    requires |chain| == LOOKBACK_BLOCKS + 2 && chain[0] == [log] && QuietAfter(chain, 0)
    ensures var ending := StoppedAt(0, Outgoing, 0);
            && FromBlock(LOOKBACK_BLOCKS) == 0 && FromBlock(LOOKBACK_BLOCKS + 1) == 1
            && IsPosition(ending, [vault], chain, 0, LOOKBACK_BLOCKS)
            && Knows(AllDone([], [vault], chain, 0, LOOKBACK_BLOCKS, first), log.txHash)
            && !Knows(AllDone(Reached([], [vault], chain, 0, LOOKBACK_BLOCKS, first, ending), [vault], chain, 1,
                              LOOKBACK_BLOCKS + 1, second), log.txHash)
  {
    var ending, vaults, n := StoppedAt(0, Outgoing, 0), [vault], LOOKBACK_BLOCKS;
    FirstBlockOnly(vault, log, chain, n);
    assert GetLogs(chain, vault.wallet, Outgoing, 0, n)[0].txHash == log.txHash;
    assert MovesAt(vaults, chain, 0, n, log.txHash, 0, Outgoing);
    StoppedAtOnce(vault, chain, n, first);
    NothingMoves(vaults, chain, 1, n + 1, log.txHash);
    hide GetLogs, AllDone, Reached, RecordOf, Stored;
    AllDoneKnows([], vaults, chain, 0, n, first, log.txHash);
    RerunKnows([], vaults, chain, 0, n, first, ending, vaults, 1, n + 1, second, log.txHash);
  }

  lemma NothingMoves(vaults: seq<Vault>, chain: Chain, lo: nat, hi: nat, txHash: string)
    requires 0 < lo && hi < |chain| && QuietAfter(chain, 0)
    ensures !Moves(vaults, chain, lo, hi, txHash)
  {
    forall k: nat, direction | k < |vaults| ensures !MovesAt(vaults, chain, lo, hi, txHash, k, direction) {
      QuietRange(chain, vaults[k].wallet, direction, lo, hi);
    }
  }

  lemma FirstBlockOnly(vault: Vault, log: Log, chain: Chain, hi: nat)
    requires hi < |chain| && chain[0] == [log] && QuietAfter(chain, 0) && log.from == vault.wallet
    ensures GetLogs(chain, vault.wallet, Outgoing, 0, hi) == [log]
  {
    AdjacentRanges(chain, vault.wallet, Outgoing, 0, 0, hi);
    QuietRange(chain, vault.wallet, Outgoing, 1, hi);
    assert Matching([log][..0], vault.wallet, Outgoing) == [];
    assert GetLogs(chain, vault.wallet, Outgoing, 0, -1) == [];
  }

  lemma StoppedAtOnce(vault: Vault, chain: Chain, hi: nat, first: Failures)
    requires hi < |chain| && IsPosition(StoppedAt(0, Outgoing, 0), [vault], chain, 0, hi)
    ensures Reached([], [vault], chain, 0, hi, first, StoppedAt(0, Outgoing, 0)) == []
  {
    hide GetLogs;
  }
}
