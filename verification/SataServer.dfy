/**
 The SATA partition server: checking the configured partitions, building the virtual partition tables, looking a
 sector up, and serving reads and writes.
 */
module SataServer {
  import opened Basics
  import opened SataDisks

  const MAX_PARTITIONS: nat := 4

  datatype Client = Client(id: nat, partitions: seq<nat>, table: seq<Partition>, capacity: nat)

  // ---- The configuration -------------------------------------------------------------------------------

  /** Partition numbers count from 1. */
  predicate Known(s: seq<nat>) {
    forall i :: 0 <= i < |s| ==> 1 <= s[i] <= MAX_PARTITIONS
  }

  predicate Assignable(s: seq<nat>) {
    Known(s) && NoDuplicates(s)
  }

  /** No client has too many partitions, and every partition exists and goes to one client once. */
  predicate ValidConfig(lists: seq<seq<nat>>) {
    (forall c :: 0 <= c < |lists| ==> |lists[c]| <= MAX_PARTITIONS) && Assignable(Flatten(lists))
  }

  /** A prefix of an assignable list is assignable. */
  lemma AssignablePrefix(s: seq<nat>, t: seq<nat>)
    requires Assignable(s + t)
    ensures Assignable(s)
  {
    assert forall i :: 0 <= i < |s| ==> s[i] == (s + t)[i];
  }

  lemma {:induction false} FlattenPrefix(lists: seq<seq<nat>>, n: nat)
    requires n <= |lists|
    ensures Assignable(Flatten(lists)) ==> Assignable(Flatten(lists[..n]))
    decreases |lists| - n
  {
    if n < |lists| {
      FlattenPrefix(lists, n + 1);
      FlattenNext(lists, n);
      if Assignable(Flatten(lists)) {
        AssignablePrefix(Flatten(lists[..n]), lists[n]);
      }
    } else {
      assert lists[..n] == lists;
    }
  }

  lemma FlattenNext(lists: seq<seq<nat>>, n: nat)
    requires n < |lists|
    ensures Flatten(lists[..n + 1]) == Flatten(lists[..n]) + lists[n]
  {
    assert lists[..n + 1][..n] == lists[..n];
  }

  /** Where a client's i-th partition comes in the flattened list. */
  lemma {:induction false} FlattenHolds(lists: seq<seq<nat>>, c: nat, i: nat) returns (k: nat)
    requires c < |lists| && i < |lists[c]|
    ensures k < |Flatten(lists)| && Flatten(lists)[k] == lists[c][i]
    ensures k == |Flatten(lists[..c])| + i
  {
    var last := |lists| - 1;
    if c == last {
      k := |Flatten(lists[..last])| + i;
    } else {
      assert lists[..last][..c] == lists[..c];
      k := FlattenHolds(lists[..last], c, i);
    }
  }

  lemma {:induction false} FlattenLonger(lists: seq<seq<nat>>, c: nat, d: nat)
    requires c <= d <= |lists|
    ensures |Flatten(lists[..c])| <= |Flatten(lists[..d])|
  {
    if c < d {
      FlattenNext(lists, d - 1);
      FlattenLonger(lists, c, d - 1);
    }
  }

  /** The physical partitions of a client, in the order it lists them. */
  function OwnOf(phys: seq<Partition>, partitions: seq<nat>): (own: seq<Partition>)
    requires |phys| == MAX_PARTITIONS && Known(partitions)
    ensures |own| == |partitions|
  {
    seq(|partitions|, i requires 0 <= i < |partitions| => phys[partitions[i] - 1])
  }

  predicate AllKnown(lists: seq<seq<nat>>) {
    forall c :: 0 <= c < |lists| ==> Known(lists[c])
  }

  function OwnersOf(phys: seq<Partition>, lists: seq<seq<nat>>): (owners: seq<seq<Partition>>)
    requires |phys| == MAX_PARTITIONS && AllKnown(lists)
    ensures |owners| == |lists|
  {
    seq(|lists|, c requires 0 <= c < |lists| => OwnOf(phys, lists[c]))
  }

  predicate SeparatePartitions(phys: seq<Partition>, size: nat) {
    && InDisk(phys, size) && size <= TWO_32
    && forall i, j :: 0 <= i < |phys| && 0 <= j < |phys| && i != j ==> Disjoint(phys[i], phys[j])
  }

  /** Two places in an assignable configuration never name the same partition. */
  lemma DifferentPartitions(lists: seq<seq<nat>>, c: nat, i: nat, d: nat, j: nat)
    requires Assignable(Flatten(lists)) && c < |lists| && i < |lists[c]| && d < |lists| && j < |lists[d]|
    requires c != d || i != j
    ensures lists[c][i] != lists[d][j] && 1 <= lists[c][i] <= MAX_PARTITIONS
  {
    var k := FlattenHolds(lists, c, i);
    var l := FlattenHolds(lists, d, j);
    if c < d {
      FlattenNext(lists, c);
      FlattenLonger(lists, c + 1, d);
    } else if d < c {
      FlattenNext(lists, d);
      FlattenLonger(lists, d + 1, c);
    }
  }

  lemma AssignableKnown(lists: seq<seq<nat>>)
    requires Assignable(Flatten(lists))
    ensures AllKnown(lists)
  {
    forall c, i | 0 <= c < |lists| && 0 <= i < |lists[c]|
      ensures 1 <= lists[c][i] <= MAX_PARTITIONS
    {
      var k := FlattenHolds(lists, c, i);
    }
  }

  /** A configuration the server accepts, on separate physical partitions, gives every client a disk of its own. */
  lemma AcceptedIsSound(phys: seq<Partition>, lists: seq<seq<nat>>, size: nat)
    requires |phys| == MAX_PARTITIONS && SeparatePartitions(phys, size) && ValidConfig(lists)
    requires AllKnown(lists) && forall c :: 0 <= c < |lists| ==> Fits(OwnOf(phys, lists[c]))
    ensures Sound(OwnersOf(phys, lists), size)
    ensures forall c, i :: 0 <= c < |lists| && 0 <= i < |lists[c]| ==>
              OwnersOf(phys, lists)[c][i] == phys[lists[c][i] - 1]
  {
    var owners := OwnersOf(phys, lists);
    forall c, i, d, j | 0 <= c < |lists| && 0 <= i < |lists[c]| && 0 <= d < |lists| && 0 <= j < |lists[d]|
                        && (c != d || i != j)
      ensures Disjoint(owners[c][i], owners[d][j])
    {
      DifferentPartitions(lists, c, i, d, j);
    }
  }

  /** The place in the configuration of an entry of the flattened list. */
  lemma {:induction false} FlattenPlace(lists: seq<seq<nat>>, k: nat) returns (c: nat, i: nat)
    requires k < |Flatten(lists)|
    ensures c < |lists| && i < |lists[c]| && Flatten(lists)[k] == lists[c][i] && k == |Flatten(lists[..c])| + i
  {
    var last := |lists| - 1;
    var before := Flatten(lists[..last]);
    if k < |before| {
      c, i := FlattenPlace(lists[..last], k);
      assert lists[..last][..c] == lists[..c];
    } else {
      c, i := last, k - |before|;
    }
  }

  /** Two different places of the configuration name the same partition. */
  predicate Shared(lists: seq<seq<nat>>) {
    exists c, i, d, j ::
      0 <= c < |lists| && 0 <= i < |lists[c]| && 0 <= d < |lists| && 0 <= j < |lists[d]|
      && (c != d || i != j) && lists[c][i] == lists[d][j]
  }

  /** A configuration is valid exactly if no client has more than four partitions, all are from 1 to 4, and none is shared. */
  lemma ValidConfigIff(lists: seq<seq<nat>>)
    ensures ValidConfig(lists) <==>
              && (forall c :: 0 <= c < |lists| ==> |lists[c]| <= 4)
              && (forall c, i :: 0 <= c < |lists| && 0 <= i < |lists[c]| ==> 1 <= lists[c][i] <= 4)
              && !Shared(lists)
  {
    if Assignable(Flatten(lists)) {
      forall c, i, d, j | 0 <= c < |lists| && 0 <= i < |lists[c]| && 0 <= d < |lists| && 0 <= j < |lists[d]|
                          && (c != d || i != j)
        ensures lists[c][i] != lists[d][j] && 1 <= lists[c][i] <= 4
      {
        DifferentPartitions(lists, c, i, d, j);
      }
      AssignableKnown(lists);
    }
    if AllKnown(lists) && !Shared(lists) {
      UnsharedAssignable(lists);
    }
  }

  lemma UnsharedAssignable(lists: seq<seq<nat>>)
    requires AllKnown(lists) && !Shared(lists)
    ensures Assignable(Flatten(lists))
  {
    var all := Flatten(lists);
    forall k | 0 <= k < |all|
      ensures 1 <= all[k] <= MAX_PARTITIONS
    {
      var c, i := FlattenPlace(lists, k);
    }
    forall k, l | 0 <= k < l < |all|
      ensures all[k] != all[l]
    {
      var c, i := FlattenPlace(lists, k);
      var d, j := FlattenPlace(lists, l);
    }
  }

  /** The running sector count, kept in 32 bits, is the start of the next partition in 32 bits. */
  lemma StartNext(own: seq<Partition>, i: nat)
    requires i < |own|
    ensures (StartOf(own, i) % TWO_32 + own[i].sectors) % TWO_32 == StartOf(own, i + 1) % TWO_32
  {
  }

  // ---- The server --------------------------------------------------------------------------------------

  class Server {
    const phys: seq<Partition>
    const clients: array<Client>
    const assignedParts: array<bool>
    var disk: seq<Block>
    var invalidConfig: bool
    var doneInit: bool

    ghost predicate Valid()
    {
      |phys| == MAX_PARTITIONS && assignedParts.Length == MAX_PARTITIONS && clients as object != assignedParts
    }

    ghost function Lists(n: nat): (s: seq<seq<nat>>)
      reads clients
      requires n <= clients.Length
      ensures |s| == n
    {
      seq(n, c requires 0 <= c < n reads clients => clients[c].partitions)
    }

    /** The tables are the ones the configuration asks for. */
    ghost predicate Built(n: nat)
      reads clients
      requires |phys| == MAX_PARTITIONS && n <= clients.Length && AllKnown(Lists(n))
    {
      forall c :: 0 <= c < n ==>
        var own := OwnOf(phys, Lists(n)[c]);
        && clients[c].table == Table(own)
        && clients[c].capacity == StartOf(own, |own|) % TWO_32
    }

    /** After a valid configuration: what the run-time requests rely on. */
    ghost predicate Ready()
      reads this, clients
    {
      Valid() && doneInit && !invalidConfig && AllKnown(Lists(clients.Length)) && Built(clients.Length)
    }

    /** No table has a sector in it. */
    ghost predicate Empty()
      reads clients
    {
      forall c :: 0 <= c < clients.Length ==>
        |clients[c].table| == |clients[c].partitions|
        && forall i :: 0 <= i < |clients[c].table| ==> clients[c].table[i] == Partition(0, 0)
    }

    /** After a rejected configuration, which is reported but still ends the initialisation. */
    ghost predicate Rejected()
      reads this, clients
    {
      Valid() && doneInit && invalidConfig && Empty()
    }

    ghost function Owners(): (owners: seq<seq<Partition>>)
      reads this, clients
      requires Ready()
      ensures |owners| == clients.Length
    {
      OwnersOf(phys, Lists(clients.Length))
    }

    /** The partitions given out so far. */
    ghost predicate Tracks(seen: seq<nat>)
      reads assignedParts
      requires assignedParts.Length == MAX_PARTITIONS
    {
      forall p :: 0 <= p < MAX_PARTITIONS ==> (assignedParts[p] <==> p + 1 in seen)
    }

    constructor (phys: seq<Partition>, disk: seq<Block>, config: seq<(nat, seq<nat>)>)
      requires |phys| == MAX_PARTITIONS
      ensures Valid() && this.phys == phys && this.disk == disk && !doneInit && !invalidConfig
      ensures fresh(clients) && fresh(assignedParts) && Tracks([]) && clients.Length == |config|
      ensures forall c :: 0 <= c < |config| ==> clients[c].id == config[c].0 && clients[c].partitions == config[c].1
      ensures Empty()
    {
      this.phys, this.disk := phys, disk;
      assignedParts := new bool[MAX_PARTITIONS](_ => false);
      clients := new Client[|config|](i requires 0 <= i < |config| =>
        Client(config[i].0, config[i].1, seq(|config[i].1|, _ => Partition(0, 0)), 0));
      invalidConfig, doneInit := false, false;
    }

    /** Give a partition out, if it exists and is still free; the number is an unsigned byte. */
    method CheckPartIsAssigned(partition: nat, ghost seen: seq<nat>) returns (ok: bool)
      requires Valid() && partition < 256 && Tracks(seen) && Assignable(seen)
      modifies assignedParts
      ensures ok <==> Assignable(seen + [partition])
      ensures ok ==> Tracks(seen + [partition])
      ensures !ok ==> Tracks(seen)
    {
      var part := (partition + 255) % 256;
      if part >= MAX_PARTITIONS || assignedParts[part] {
        ok := false;
        if part < MAX_PARTITIONS {
          ghost var i :| 0 <= i < |seen| && seen[i] == partition;
          assert (seen + [partition])[i] == (seen + [partition])[|seen|];
        } else {
          assert (seen + [partition])[|seen|] == partition;
        }
      } else {
        assignedParts[part] := true;
        ok := true;
      }
    }

    method CheckClient(c: nat) returns (ok: bool)
      requires Valid() && c < clients.Length
      requires forall i :: 0 <= i < |clients[c].partitions| ==> clients[c].partitions[i] < 256
      requires Tracks(Flatten(Lists(c))) && Assignable(Flatten(Lists(c)))
      modifies assignedParts
      ensures ok <==> |clients[c].partitions| <= MAX_PARTITIONS
                      && Assignable(Flatten(Lists(c)) + clients[c].partitions)
      ensures ok ==> Tracks(Flatten(Lists(c)) + clients[c].partitions)
    {
      var partitions := clients[c].partitions;
      ghost var before := Flatten(Lists(c));
      if |partitions| > MAX_PARTITIONS {
        return false;
      }
      assert before + partitions[..0] == before;
      for i := 0 to |partitions|
        invariant Tracks(before + partitions[..i]) && Assignable(before + partitions[..i])
      {
        assert before + partitions[..i + 1] == before + partitions[..i] + [partitions[i]];
        ok := CheckPartIsAssigned(partitions[i], before + partitions[..i]);
        if !ok {
          if Assignable(before + partitions) {
            assert before + partitions == before + partitions[..i + 1] + partitions[i + 1..];
            AssignablePrefix(before + partitions[..i + 1], partitions[i + 1..]);
          }
          return;
        }
      }
      assert before + partitions[..|partitions|] == before + partitions;
      ok := true;
    }

    /** The configuration is rejected exactly when it is not valid. */
    method CheckClients() returns (ok: bool)
      requires Valid() && Tracks([])
      requires forall c :: 0 <= c < clients.Length ==>
                 forall i :: 0 <= i < |clients[c].partitions| ==> clients[c].partitions[i] < 256
      modifies assignedParts
      ensures ok <==> ValidConfig(Lists(clients.Length))
    {
      ghost var lists := Lists(clients.Length);
      assert Lists(0) == [];
      for c := 0 to clients.Length
        invariant Tracks(Flatten(Lists(c))) && Assignable(Flatten(Lists(c)))
        invariant forall d :: 0 <= d < c ==> |clients[d].partitions| <= MAX_PARTITIONS
      {
        assert lists[..c] == Lists(c) && lists[..c + 1] == Lists(c + 1);
        FlattenNext(lists, c);
        ok := CheckClient(c);
        if !ok {
          FlattenPrefix(lists, c + 1);
          assert lists[c] == clients[c].partitions;
          return;
        }
      }
      ok := true;
    }

    /** One client's table and capacity: its partitions end to end from sector 64, in 32-bit arithmetic. */
    method BuildTable(partitions: seq<nat>) returns (table: seq<Partition>, sectors: nat)
      requires Valid() && Known(partitions)
      ensures table == Table(OwnOf(phys, partitions))
      ensures sectors == StartOf(OwnOf(phys, partitions), |partitions|) % TWO_32
    {
      ghost var own := OwnOf(phys, partitions);
      sectors := VIRT_START_SECTOR;
      table := [];
      for i := 0 to |partitions|
        invariant sectors == StartOf(own, i) % TWO_32
        invariant |table| == i && forall j :: 0 <= j < i ==> table[j] == Table(own)[j]
      {
        var partIdx := partitions[i] - 1;
        StartNext(own, i);
        assert own[i] == phys[partIdx];
        table := table + [Partition(sectors, phys[partIdx].sectors)];
        sectors := (sectors + phys[partIdx].sectors) % TWO_32;
      }
    }

    method BuildTables()
      requires Valid() && AllKnown(Lists(clients.Length))
      modifies clients
      ensures Lists(clients.Length) == old(Lists(clients.Length)) && Built(clients.Length)
      ensures forall c :: 0 <= c < clients.Length ==> clients[c].id == old(clients[c].id)
    {
      ghost var lists := Lists(clients.Length);
      for c := 0 to clients.Length
        invariant Lists(clients.Length) == lists
        invariant forall d :: 0 <= d < clients.Length ==> clients[d].id == old(clients[d].id)
        invariant forall d :: 0 <= d < c ==>
                    var own := OwnOf(phys, lists[d]);
                    && clients[d].table == Table(own)
                    && clients[d].capacity == StartOf(own, |own|) % TWO_32
      {
        assert clients[c].partitions == lists[c];
        var table, capacity := BuildTable(clients[c].partitions);
        clients[c] := clients[c].(table := table, capacity := capacity);
      }
    }

    /** Initialisation: a valid configuration makes the server ready, any other leaves every table empty. */
    method PostInit()
      requires Valid() && Tracks([]) && !invalidConfig && Empty()
      requires forall c :: 0 <= c < clients.Length ==>
                 forall i :: 0 <= i < |clients[c].partitions| ==> clients[c].partitions[i] < 256
      modifies this`invalidConfig, this`doneInit, assignedParts, clients
      ensures doneInit && invalidConfig == !ValidConfig(old(Lists(clients.Length)))
      ensures !invalidConfig ==> Ready() && Lists(clients.Length) == old(Lists(clients.Length))
      ensures invalidConfig ==> Rejected()
    {
      var ok := CheckClients();
      if ok {
        AssignableKnown(Lists(clients.Length));
        BuildTables();
      } else {
        invalidConfig := true;
      }
      doneInit := true;
    }

    /** The lookup ended at entry r, which belongs to a partition that exists. */
    ghost predicate FoundAt(client: Client, sector: nat, r: nat, offset: int) {
      && r < |client.table| && r < |client.partitions|
      && Locate(client.table, sector, 0) == r && Hit(client.table[r], sector)
      && 1 <= client.partitions[r] <= |phys|
      && offset == phys[client.partitions[r] - 1].start - client.table[r].start
    }

    /** The first partition that holds the sector, as the offset from virtual to physical sectors. */
    method CalculateSectorOffset(c: nat, sector: nat) returns (found: bool, offset: int)
      requires Ready() || Rejected()
      requires c < clients.Length
      ensures Rejected() ==> !found
      ensures Ready() ==>
                var own := Owners()[c];
                var r := Locate(Table(own), sector, 0);
                && (found <==> r < |own|)
                && (found ==> (sector + offset) % TWO_32 == Physical(own, r, sector))
    {
      UsableTable(c);
      found, offset := LookUp(clients[c], sector);
      if found && Ready() {
        OffsetTranslates(clients[c], sector, Locate(clients[c].table, sector, 0), offset);
      }
    }

    lemma OffsetTranslates(client: Client, sector: nat, r: nat, offset: int)
      requires Valid() && Known(client.partitions) && client.table == Table(OwnOf(phys, client.partitions))
      requires FoundAt(client, sector, r, offset)
      ensures (sector + offset) % TWO_32 == Physical(OwnOf(phys, client.partitions), r, sector)
    {
    }

    /** The lookup loop; entries that hold sectors belong to partitions that exist. */
    method LookUp(client: Client, sector: nat) returns (found: bool, offset: int)
      requires |client.table| == |client.partitions|
      requires forall i :: 0 <= i < |client.table| && client.table[i] != Partition(0, 0) ==>
                 1 <= client.partitions[i] <= |phys|
      ensures found <==> Locate(client.table, sector, 0) < |client.table|
      ensures found ==> FoundAt(client, sector, Locate(client.table, sector, 0), offset)
    {
      found, offset := false, 0;
      var i := 0;
      while !found && i < |client.partitions|
        invariant 0 <= i <= |client.table|
        invariant !found ==> Locate(client.table, sector, 0) == Locate(client.table, sector, i)
        invariant found ==> i > 0 && FoundAt(client, sector, i - 1, offset)
        decreases |client.partitions| - i + if found then 0 else 1
      {
        var virtStart := client.table[i].start;
        if sector >= virtStart && sector < (virtStart + client.table[i].sectors) % TWO_32 {
          offset := phys[client.partitions[i] - 1].start - virtStart;
          found := true;
        }
        i := i + 1;
      }
    }

    /** Either way every entry that can be hit belongs to a partition that exists. */
    lemma UsableTable(c: nat)
      requires (Ready() || Rejected()) && c < clients.Length
      ensures var client := clients[c];
              && |client.table| == |client.partitions|
              && (Rejected() ==> forall i :: 0 <= i < |client.table| ==> client.table[i] == Partition(0, 0))
              && (Ready() ==> client.table == Table(Owners()[c])
                              && Owners()[c] == OwnOf(phys, client.partitions) && Known(client.partitions))
    {
      assert Ready() ==> clients[c].partitions == Lists(clients.Length)[c];
    }

    /** The client with an id: the last one, should there be several. */
    method FindClient(id: nat) returns (c: nat)
      requires exists i :: 0 <= i < clients.Length && clients[i].id == id
      ensures c < clients.Length && clients[c].id == id
      ensures forall i :: c < i < clients.Length ==> clients[i].id != id
    {
      c := 0;
      for i := 0 to clients.Length
        invariant (c < clients.Length && clients[c].id == id && forall j :: c < j < i ==> clients[j].id != id)
                  || forall j :: 0 <= j < i ==> clients[j].id != id
      {
        if clients[i].id == id {
          c := i;
        }
      }
    }

    /** The size of the client's disk, header included. */
    method GetCapacity(c: nat) returns (capacity: nat)
      requires c < clients.Length && (doneInit ==> Ready() || Rejected())
      ensures !doneInit ==> capacity == 0
      ensures Ready() ==> capacity == StartOf(Owners()[c], |Owners()[c]|) % TWO_32
    {
      if !doneInit {
        return 0;
      }
      assert Ready() ==> clients[c].partitions == Lists(clients.Length)[c];
      capacity := clients[c].capacity;
    }

    /** Before initialisation, and for data after a rejected configuration, every request is refused. */
    method ClientRx(c: nat, sector: nat, len: nat) returns (ret: nat, reply: Reply)
      requires c < clients.Length && (doneInit ==> Ready() || Rejected())
      ensures Ready() ==> reply == Serve(Owners(), disk, Read(c, sector, len)).0
      ensures !doneInit || (Rejected() && sector >= VIRT_START_SECTOR) ==> reply == Refused
      ensures ret == if reply == Refused then 0 else len
    {
      if !doneInit || len > BUF_SIZE {
        return 0, Refused;
      }
      assert Ready() ==> clients[c].partitions == Lists(clients.Length)[c];
      ret := len;
      if sector == 0 {
        reply := Partitions(clients[c].table);
      } else if sector < VIRT_START_SECTOR {
        reply := Zeros;
      } else {
        var found, offset := CalculateSectorOffset(c, sector);
        reply := Refused;
        if found {
          reply := ReadSectors(len / BLOCK_SIZE, (sector + offset) % TWO_32);
        }
        if reply == Refused {
          ret := 0;
        }
      }
    }

    method ClientTx(c: nat, sector: nat, len: nat, packet: seq<Block>) returns (ret: nat, reply: Reply)
      requires c < clients.Length && (doneInit ==> Ready() || Rejected())
      modifies this`disk
      ensures Ready() ==> (reply, disk) == Serve(Owners(), old(disk), Write(c, sector, len, packet))
      ensures !doneInit || (Rejected() && sector >= VIRT_START_SECTOR) ==> reply == Refused
      ensures !doneInit || Rejected() ==> disk == old(disk)
      ensures ret == (if reply == Refused then 0 else len) && |disk| == |old(disk)|
    {
      if !doneInit || len > BUF_SIZE {
        return 0, Refused;
      }
      ret, reply := len, Accepted;
      if sector >= VIRT_START_SECTOR {
        var found, offset := CalculateSectorOffset(c, sector);
        reply := Refused;
        if found {
          reply := WriteSectors(len / BLOCK_SIZE, (sector + offset) % TWO_32, packet);
        }
        if reply == Refused {
          ret := 0;
        }
      }
    }

    /** The driver's read; a range that is not on the disk is an error. */
    method ReadSectors(n: nat, p: nat) returns (reply: Reply)
      ensures forall r: Request :: r.Read? ==> reply == Transfer(disk, p, n, r).0
    {
      reply := if p + n > |disk| then Refused else Blocks(disk[p..p + n]);
    }

    method WriteSectors(n: nat, p: nat, packet: seq<Block>) returns (reply: Reply)
      modifies this`disk
      ensures forall r: Request :: r.Write? && r.packet == packet ==> (reply, disk) == Transfer(old(disk), p, n, r)
      ensures |disk| == |old(disk)|
    {
      if p + n > |disk| || |packet| != n {
        return Refused;
      }
      disk := Overwrite(disk, p, packet);
      reply := Accepted;
    }
  }
}
