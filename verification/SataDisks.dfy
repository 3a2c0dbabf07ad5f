/**
 Virtual disks over one shared physical disk.  A client's disk is its partitions, laid end to end from sector 64; the
 server finds the partition that holds the first sector of a request and moves the whole request by the offset of that
 partition.
 */
module SataDisks {
  import opened Basics
  import opened Chains

  const VIRT_START_SECTOR: nat := 64
  const BUF_SIZE: nat := 4096
  const BLOCK_SIZE: nat := 512

  datatype Block = Block(bytes: seq<nat>)

  datatype Partition = Partition(start: nat, sectors: nat)

  // ---- A client's disk ---------------------------------------------------------------------------------

  /** The sectors of the first i partitions together. */
  function Size(own: seq<Partition>, i: nat): nat
    requires i <= |own|
  {
    if i == 0 then 0 else Size(own, i - 1) + own[i - 1].sectors
  }

  /** Where the i-th partition starts on the virtual disk, before truncation to 32 bits. */
  function StartOf(own: seq<Partition>, i: nat): nat
    requires i <= |own|
  {
    VIRT_START_SECTOR + Size(own, i)
  }

  /** The virtual partition table. */
  function Table(own: seq<Partition>): (t: seq<Partition>)
    ensures |t| == |own|
  {
    seq(|own|, i requires 0 <= i < |own| => Partition(StartOf(own, i) % TWO_32, own[i].sectors))
  }

  predicate InDisk(own: seq<Partition>, size: nat) {
    forall i :: 0 <= i < |own| ==> own[i].start + own[i].sectors <= size
  }

  function Slice(disk: seq<Block>, p: Partition): (s: seq<Block>)
    requires p.start + p.sectors <= |disk|
    ensures |s| == p.sectors
  {
    disk[p.start..p.start + p.sectors]
  }

  /** The contents of the first i partitions, one after the other. */
  function Prefix(disk: seq<Block>, own: seq<Partition>, i: nat): (v: seq<Block>)
    requires InDisk(own, |disk|) && i <= |own|
    ensures |v| == Size(own, i)
  {
    if i == 0 then [] else Prefix(disk, own, i - 1) + Slice(disk, own[i - 1])
  }

  /** A client's disk. */
  function Virtual(disk: seq<Block>, own: seq<Partition>): (v: seq<Block>)
    requires InDisk(own, |disk|)
    ensures |v| == Size(own, |own|)
  {
    Prefix(disk, own, |own|)
  }

  // ---- Translation -------------------------------------------------------------------------------------

  predicate Hit(entry: Partition, sector: nat) {
    entry.start <= sector < (entry.start + entry.sectors) % TWO_32
  }

  /** The first table entry, from i on, that holds the sector; the number of entries if none does. */
  function Locate(table: seq<Partition>, sector: nat, i: nat): (r: nat)
    requires i <= |table|
    ensures i <= r <= |table|
    decreases |table| - i
  {
    if i == |table| || Hit(table[i], sector) then i else Locate(table, sector, i + 1)
  }

  /** The physical sector, in 32-bit arithmetic. */
  function Physical(own: seq<Partition>, i: nat, sector: nat): nat
    requires i < |own|
  {
    (sector + own[i].start - Table(own)[i].start) % TWO_32
  }

  predicate Fits(own: seq<Partition>) {
    VIRT_START_SECTOR + Size(own, |own|) < TWO_32
  }

  lemma {:induction false} SizeMonotone(own: seq<Partition>, i: nat, j: nat)
    requires i <= j <= |own|
    ensures Size(own, i) <= Size(own, j)
  {
    if i < j {
      SizeMonotone(own, i, j - 1);
    }
  }

  lemma TableEntry(own: seq<Partition>, i: nat)
    requires i < |own| && Fits(own)
    ensures Table(own)[i] == Partition(StartOf(own, i), own[i].sectors)
    ensures StartOf(own, i + 1) == StartOf(own, i) + own[i].sectors <= VIRT_START_SECTOR + Size(own, |own|)
  {
    SizeMonotone(own, i + 1, |own|);
  }

  /** The lookup finds the partition that holds a sector exactly when the virtual disk does. */
  lemma {:induction false} LocateFinds(own: seq<Partition>, sector: nat, i: nat)
    requires Fits(own) && i <= |own| && StartOf(own, i) <= sector
    ensures var r := Locate(Table(own), sector, i);
            && (r < |own| <==> sector < VIRT_START_SECTOR + Size(own, |own|))
            && (r < |own| ==> StartOf(own, r) <= sector < StartOf(own, r) + own[r].sectors)
    decreases |own| - i
  {
    if i < |own| {
      TableEntry(own, i);
      if !Hit(Table(own)[i], sector) {
        LocateFinds(own, sector, i + 1);
      }
    }
  }

  // ---- Reading and writing through the translation -----------------------------------------------------

  predicate Inside(p: nat, n: nat, size: nat) {
    p + n <= size
  }

  function Overwrite(disk: seq<Block>, p: nat, data: seq<Block>): (d: seq<Block>)
    requires Inside(p, |data|, |disk|)
    ensures |d| == |disk|
  {
    disk[..p] + data + disk[p + |data|..]
  }

  predicate Disjoint(a: Partition, b: Partition) {
    a.sectors == 0 || b.sectors == 0 || a.start + a.sectors <= b.start || b.start + b.sectors <= a.start
  }

  /** A client's partitions do not overlap one another. */
  predicate Separate(own: seq<Partition>) {
    forall i, j :: 0 <= i < j < |own| ==> Disjoint(own[i], own[j])
  }

  predicate Clear(q: Partition, p: nat, n: nat) {
    n == 0 || q.sectors == 0 || q.start + q.sectors <= p || p + n <= q.start
  }

  lemma SliceOutside(disk: seq<Block>, p: nat, data: seq<Block>, q: Partition)
    requires Inside(p, |data|, |disk|) && q.start + q.sectors <= |disk| && Clear(q, p, |data|)
    ensures Slice(Overwrite(disk, p, data), q) == Slice(disk, q)
  {
  }

  lemma SliceInside(disk: seq<Block>, q: Partition, k: nat, data: seq<Block>)
    requires q.start + q.sectors <= |disk| && k + |data| <= q.sectors
    ensures Slice(Overwrite(disk, q.start + k, data), q) == Overwrite(Slice(disk, q), k, data)
  {
  }

  lemma SubSlice(disk: seq<Block>, q: Partition, k: nat, len: nat)
    requires q.start + q.sectors <= |disk| && k + len <= q.sectors
    ensures Slice(disk, q)[k..k + len] == disk[q.start + k..q.start + k + len]
  {
    var part, whole := Slice(disk, q)[k..k + len], disk[q.start + k..q.start + k + len];
    assert forall i :: 0 <= i < len ==> part[i] == whole[i];
  }

  /** A write clear of the first i of a client's partitions leaves their contents alone. */
  lemma {:induction false} WriteElsewhere(disk: seq<Block>, own: seq<Partition>, i: nat, p: nat, data: seq<Block>)
    requires InDisk(own, |disk|) && i <= |own| && Inside(p, |data|, |disk|)
    requires forall j :: 0 <= j < i ==> Clear(own[j], p, |data|)
    ensures Prefix(Overwrite(disk, p, data), own, i) == Prefix(disk, own, i)
  {
    if i > 0 {
      var q := own[i - 1];
      WriteElsewhere(disk, own, i - 1, p, data);
      SliceOutside(disk, p, data, q);
    }
  }

  lemma OverwriteLeft(a: seq<Block>, b: seq<Block>, k: nat, data: seq<Block>)
    requires k + |data| <= |a|
    ensures Overwrite(a + b, k, data) == Overwrite(a, k, data) + b
  {
  }

  lemma OverwriteRight(a: seq<Block>, b: seq<Block>, at: nat, k: nat, data: seq<Block>)
    requires at == |a| + k && k + |data| <= |b|
    ensures Overwrite(a + b, at, data) == a + Overwrite(b, k, data)
  {
  }

  /** The last partition of a prefix is overwritten, and those before it are not. */
  lemma LastOverwritten(disk: seq<Block>, after: seq<Block>, own: seq<Partition>, i: nat, k: nat, data: seq<Block>,
                        at: nat)
    requires |after| == |disk| && InDisk(own, |disk|) && i < |own| && k + |data| <= own[i].sectors
    requires at == Size(own, i) + k
    requires Prefix(after, own, i) == Prefix(disk, own, i)
    requires Slice(after, own[i]) == Overwrite(Slice(disk, own[i]), k, data)
    ensures Prefix(after, own, i + 1) == Overwrite(Prefix(disk, own, i + 1), at, data)
  {
    OverwriteRight(Prefix(disk, own, i), Slice(disk, own[i]), at, k, data);
  }

  /** A prefix is overwritten, and the partition after it is not. */
  lemma NextUntouched(disk: seq<Block>, after: seq<Block>, own: seq<Partition>, n: nat, at: nat, data: seq<Block>)
    requires |after| == |disk| && InDisk(own, |disk|) && n < |own| && at + |data| <= Size(own, n)
    requires Prefix(after, own, n) == Overwrite(Prefix(disk, own, n), at, data)
    requires Slice(after, own[n]) == Slice(disk, own[n])
    ensures Prefix(after, own, n + 1) == Overwrite(Prefix(disk, own, n + 1), at, data)
  {
    OverwriteLeft(Prefix(disk, own, n), Slice(disk, own[n]), at, data);
  }

  /** The slices after a write inside the i-th partition. */
  lemma SlicesAfter(disk: seq<Block>, own: seq<Partition>, i: nat, k: nat, data: seq<Block>, after: seq<Block>)
    requires InDisk(own, |disk|) && Separate(own) && i < |own| && k + |data| <= own[i].sectors
    requires after == Overwrite(disk, own[i].start + k, data)
    ensures Slice(after, own[i]) == Overwrite(Slice(disk, own[i]), k, data)
    ensures Prefix(after, own, i) == Prefix(disk, own, i)
    ensures forall j :: i < j < |own| ==> Slice(after, own[j]) == Slice(disk, own[j])
  {
    SliceInside(disk, own[i], k, data);
    WriteElsewhere(disk, own, i, own[i].start + k, data);
    forall j | i < j < |own|
      ensures Slice(after, own[j]) == Slice(disk, own[j])
    {
      assert Disjoint(own[i], own[j]);
      SliceOutside(disk, own[i].start + k, data, own[j]);
    }
  }

  lemma {:induction false} PrefixOverwritten(disk: seq<Block>, after: seq<Block>, own: seq<Partition>, i: nat, k: nat,
                                             data: seq<Block>, at: nat, n: nat)
    requires |after| == |disk| && InDisk(own, |disk|) && i < n <= |own| && k + |data| <= own[i].sectors
    requires at == Size(own, i) + k
    requires Prefix(after, own, i) == Prefix(disk, own, i)
    requires Slice(after, own[i]) == Overwrite(Slice(disk, own[i]), k, data)
    requires forall j :: i < j < n ==> Slice(after, own[j]) == Slice(disk, own[j])
    ensures at + |data| <= Size(own, n)
    ensures Prefix(after, own, n) == Overwrite(Prefix(disk, own, n), at, data)
  {
    WithinSize(own, i, k + |data|, n);
    if i == n - 1 {
      LastOverwritten(disk, after, own, i, k, data, at);
    } else {
      PrefixOverwritten(disk, after, own, i, k, data, at, n - 1);
      NextUntouched(disk, after, own, n - 1, at, data);
    }
  }

  /** A write inside the i-th partition is the same write on the client's disk. */
  lemma WriteWithin(disk: seq<Block>, own: seq<Partition>, i: nat, k: nat, data: seq<Block>, after: seq<Block>)
    requires InDisk(own, |disk|) && Separate(own) && i < |own| && k + |data| <= own[i].sectors
    requires after == Overwrite(disk, own[i].start + k, data)
    ensures Size(own, i) + k + |data| <= Size(own, |own|)
    ensures Virtual(after, own) == Overwrite(Virtual(disk, own), Size(own, i) + k, data)
  {
    SlicesAfter(disk, own, i, k, data, after);
    PrefixOverwritten(disk, after, own, i, k, data, Size(own, i) + k, |own|);
  }

  lemma SliceLeft(a: seq<Block>, b: seq<Block>, lo: nat, hi: nat)
    requires lo <= hi <= |a|
    ensures (a + b)[lo..hi] == a[lo..hi]
  {
  }

  lemma SliceRight(a: seq<Block>, b: seq<Block>, at: nat, lo: nat, n: nat)
    requires at == |a| + lo && lo + n <= |b|
    ensures (a + b)[at..at + n] == b[lo..lo + n]
  {
  }

  lemma WithinSize(own: seq<Partition>, i: nat, k: nat, n: nat)
    requires i < n <= |own| && k <= own[i].sectors
    ensures Size(own, i) + k <= Size(own, n)
  {
    SizeMonotone(own, i + 1, n);
  }

  /** A read inside the i-th partition is the same read on the disk made of the first n, for i < n. */
  lemma {:induction false} ReadWithin(disk: seq<Block>, own: seq<Partition>, i: nat, k: nat, len: nat, p: nat, at: nat,
                                      n: nat)
    requires InDisk(own, |disk|) && i < n <= |own| && k + len <= own[i].sectors
    requires p == own[i].start + k && at == Size(own, i) + k
    ensures p + len <= |disk| && at + len <= Size(own, n)
    ensures disk[p..p + len] == Prefix(disk, own, n)[at..at + len]
  {
    WithinSize(own, i, k + len, n);
    if i < n - 1 {
      ReadWithin(disk, own, i, k, len, p, at, n - 1);
      ReadLeft(disk, own, n - 1, at, at + len);
    } else {
      ReadLast(disk, own, i, k, len, p, at);
    }
  }

  lemma ReadLeft(disk: seq<Block>, own: seq<Partition>, n: nat, lo: nat, hi: nat)
    requires InDisk(own, |disk|) && n < |own| && lo <= hi <= Size(own, n)
    ensures Prefix(disk, own, n + 1)[lo..hi] == Prefix(disk, own, n)[lo..hi]
  {
    SliceLeft(Prefix(disk, own, n), Slice(disk, own[n]), lo, hi);
  }

  lemma ReadLast(disk: seq<Block>, own: seq<Partition>, i: nat, k: nat, len: nat, p: nat, at: nat)
    requires InDisk(own, |disk|) && i < |own| && k + len <= own[i].sectors
    requires p == own[i].start + k && at == Size(own, i) + k
    ensures disk[p..p + len] == Prefix(disk, own, i + 1)[at..at + len]
  {
    var part := Slice(disk, own[i]);
    assert part[k..k + len] == disk[p..p + len] by {
      SubSlice(disk, own[i], k, len);
    }
    SliceRight(Prefix(disk, own, i), part, at, k, len);
  }

  // ---- Requests ----------------------------------------------------------------------------------------

  datatype Request =
    | Read(client: nat, sector: nat, len: nat)
    | Write(client: nat, sector: nat, len: nat, packet: seq<Block>)

  /** What the client sees: an error, its partition table, zeros, blocks, or an acknowledgement. */
  datatype Reply = Refused | Partitions(table: seq<Partition>) | Zeros | Blocks(blocks: seq<Block>) | Accepted

  /** Every partition is on the disk, whose sectors have 32-bit numbers. */
  predicate OnDisk(owners: seq<seq<Partition>>, size: nat) {
    size <= TWO_32 && forall c :: 0 <= c < |owners| ==> InDisk(owners[c], size)
  }

  /** The whole server: which partitions each client owns, on one disk. */
  predicate Sound(owners: seq<seq<Partition>>, size: nat) {
    && OnDisk(owners, size)
    && (forall c :: 0 <= c < |owners| ==> Separate(owners[c]) && Fits(owners[c]))
    && (forall c, d, i, j :: 0 <= c < |owners| && 0 <= d < |owners| && c != d && 0 <= i < |owners[c]| && 0 <= j < |owners[d]| ==>
          Disjoint(owners[c][i], owners[d][j]))
  }

  /** Requests the driver carries out: the transfer lies inside the partition that holds its first sector. */
  predicate InOnePartition(owners: seq<seq<Partition>>, r: Request) {
    && r.client < |owners|
    && (r.Write? ==> |r.packet| == r.len / BLOCK_SIZE)
    && (r.len <= BUF_SIZE && r.sector >= VIRT_START_SECTOR ==>
          var own := owners[r.client];
          var i := Locate(Table(own), r.sector, 0);
          i < |own| ==> r.sector + r.len / BLOCK_SIZE <= Table(own)[i].start + own[i].sectors)
  }

  /** A transfer of n sectors of the disk, from sector p. */
  function Transfer(disk: seq<Block>, p: nat, n: nat, r: Request): (Reply, seq<Block>) {
    if p + n > |disk| then (Refused, disk)
    else if r.Read? then (Blocks(disk[p..p + n]), disk)
    else if |r.packet| == n then (Accepted, Overwrite(disk, p, r.packet))
    else (Refused, disk)
  }

  /** Requests below the first partition: the partition table, zeros, and writes that are dropped. */
  function ServeHeader(own: seq<Partition>, r: Request): Reply {
    if r.Write? then Accepted else if r.sector == 0 then Partitions(Table(own)) else Zeros
  }

  /** One request on the shared disk. */
  function Serve(owners: seq<seq<Partition>>, disk: seq<Block>, r: Request): (Reply, seq<Block>)
    requires r.client < |owners|
  {
    var own := owners[r.client];
    if r.len > BUF_SIZE then (Refused, disk)
    else if r.sector < VIRT_START_SECTOR then (ServeHeader(own, r), disk)
    else
      var i := Locate(Table(own), r.sector, 0);
      if i == |own| then (Refused, disk)
      else Transfer(disk, Physical(own, i, r.sector), r.len / BLOCK_SIZE, r)
  }

  /** The same request on a disk of the client's own. */
  function ServeAlone(own: seq<Partition>, disk: seq<Block>, r: Request): (Reply, seq<Block>) {
    if r.len > BUF_SIZE then (Refused, disk)
    else if r.sector < VIRT_START_SECTOR then (ServeHeader(own, r), disk)
    else if r.sector - VIRT_START_SECTOR >= |disk| then (Refused, disk)
    else Transfer(disk, r.sector - VIRT_START_SECTOR, r.len / BLOCK_SIZE, r)
  }

  function VirtualDisks(owners: seq<seq<Partition>>, disk: seq<Block>): (v: seq<seq<Block>>)
    requires Sound(owners, |disk|)
    ensures |v| == |owners|
  {
    seq(|owners|, c requires 0 <= c < |owners| => Virtual(disk, owners[c]))
  }

  /** Where a request lands: the located partition, the offset in it and the physical sector. */
  lemma Landing(own: seq<Partition>, size: nat, sector: nat, n: nat)
    requires InDisk(own, size) && size <= TWO_32 && Fits(own) && VIRT_START_SECTOR <= sector
    ensures var i := Locate(Table(own), sector, 0);
            && (i < |own| <==> sector - VIRT_START_SECTOR < Size(own, |own|))
            && (i < |own| && sector + n <= Table(own)[i].start + own[i].sectors ==>
                  var k := sector - StartOf(own, i);
                  && k >= 0 && k + n <= own[i].sectors
                  && Physical(own, i, sector) == own[i].start + k
                  && sector - VIRT_START_SECTOR == Size(own, i) + k)
  {
    var i := Locate(Table(own), sector, 0);
    LocateFinds(own, sector, 0);
    if i < |own| {
      TableEntry(own, i);
    }
  }

  lemma ReadRefines(owners: seq<seq<Partition>>, disk: seq<Block>, r: Request)
    requires Sound(owners, |disk|) && InOnePartition(owners, r) && r.Read?
    ensures Serve(owners, disk, r).0 == ServeAlone(owners[r.client], Virtual(disk, owners[r.client]), r).0
    ensures Serve(owners, disk, r).1 == disk
    ensures ServeAlone(owners[r.client], Virtual(disk, owners[r.client]), r).1 == Virtual(disk, owners[r.client])
  {
    var own, n := owners[r.client], r.len / BLOCK_SIZE;
    if r.len <= BUF_SIZE && r.sector >= VIRT_START_SECTOR {
      Landing(own, |disk|, r.sector, n);
      var i := Locate(Table(own), r.sector, 0);
      if i < |own| {
        ReadLanded(owners, disk, r, i, r.sector - StartOf(own, i));
      }
    }
  }

  /** A located read, on the shared disk and on the client's own. */
  lemma ReadLanded(owners: seq<seq<Partition>>, disk: seq<Block>, r: Request, i: nat, k: nat)
    requires Sound(owners, |disk|) && r.client < |owners| && r.Read? && r.len <= BUF_SIZE
    requires var own := owners[r.client];
             && i == Locate(Table(own), r.sector, 0) < |own|
             && Physical(own, i, r.sector) == own[i].start + k
             && VIRT_START_SECTOR <= r.sector == VIRT_START_SECTOR + Size(own, i) + k
             && k + r.len / BLOCK_SIZE <= own[i].sectors
             && r.sector < VIRT_START_SECTOR + Size(own, |own|)
    ensures var mine := Virtual(disk, owners[r.client]);
            && Serve(owners, disk, r).0 == ServeAlone(owners[r.client], mine, r).0
            && Serve(owners, disk, r).1 == disk
            && ServeAlone(owners[r.client], mine, r).1 == mine
  {
    var own, n := owners[r.client], r.len / BLOCK_SIZE;
    var p, at := own[i].start + k, Size(own, i) + k;
    ReadWithin(disk, own, i, k, n, p, at, |own|);
    assert Serve(owners, disk, r) == Transfer(disk, p, n, r);
    assert ServeAlone(own, Virtual(disk, own), r) == Transfer(Virtual(disk, own), at, n, r);
  }

  /** The client's own disk sees its write, and every other client's disk stays as it is. */
  predicate WriteMatches(owners: seq<seq<Partition>>, disk: seq<Block>, r: Request)
    requires Sound(owners, |disk|) && r.client < |owners|
  {
    var own := owners[r.client];
    var (reply, after) := Serve(owners, disk, r);
    && |after| == |disk|
    && (reply, Virtual(after, own)) == ServeAlone(own, Virtual(disk, own), r)
    && forall d :: 0 <= d < |owners| && d != r.client ==> Virtual(after, owners[d]) == Virtual(disk, owners[d])
  }

  lemma WriteRefines(owners: seq<seq<Partition>>, disk: seq<Block>, r: Request)
    requires Sound(owners, |disk|) && InOnePartition(owners, r) && r.Write?
    ensures WriteMatches(owners, disk, r)
  {
    var own, n := owners[r.client], r.len / BLOCK_SIZE;
    if r.len <= BUF_SIZE && r.sector >= VIRT_START_SECTOR {
      Landing(own, |disk|, r.sector, n);
      var i := Locate(Table(own), r.sector, 0);
      if i < |own| {
        WriteLanded(owners, disk, r, i, r.sector - StartOf(own, i));
      }
    }
  }

  /** A located write, on the shared disk and on the client's own. */
  lemma WriteLanded(owners: seq<seq<Partition>>, disk: seq<Block>, r: Request, i: nat, k: nat)
    requires Sound(owners, |disk|) && r.client < |owners| && r.Write? && r.len <= BUF_SIZE
    requires var own := owners[r.client];
             && i == Locate(Table(own), r.sector, 0) < |own|
             && Physical(own, i, r.sector) == own[i].start + k
             && VIRT_START_SECTOR <= r.sector == VIRT_START_SECTOR + Size(own, i) + k
             && k + r.len / BLOCK_SIZE <= own[i].sectors
             && r.sector < VIRT_START_SECTOR + Size(own, |own|)
    requires |r.packet| == r.len / BLOCK_SIZE
    ensures WriteMatches(owners, disk, r)
  {
    var own := owners[r.client];
    var after := Overwrite(disk, own[i].start + k, r.packet);
    assert Serve(owners, disk, r) == (Accepted, after);
    assert Virtual(after, own) == Overwrite(Virtual(disk, own), Size(own, i) + k, r.packet)
        && Size(own, i) + k + |r.packet| <= Size(own, |own|) by {
      WriteWithin(disk, own, i, k, r.packet, after);
    }
    assert ServeAlone(own, Virtual(disk, own), r) == (Accepted, Virtual(after, own));
    OthersUntouched(owners, disk, r.client, i, k, r.packet, after);
  }

  lemma OthersUntouched(owners: seq<seq<Partition>>, disk: seq<Block>, c: nat, i: nat, k: nat, data: seq<Block>,
                        after: seq<Block>)
    requires Sound(owners, |disk|) && c < |owners| && i < |owners[c]| && k + |data| <= owners[c][i].sectors
    requires after == Overwrite(disk, owners[c][i].start + k, data)
    ensures forall d :: 0 <= d < |owners| && d != c ==> Virtual(after, owners[d]) == Virtual(disk, owners[d])
  {
    var part := owners[c][i];
    forall d | 0 <= d < |owners| && d != c
      ensures Virtual(after, owners[d]) == Virtual(disk, owners[d])
    {
      WriteElsewhere(disk, owners[d], |owners[d]|, part.start + k, data);
    }
  }

  // ---- Runs --------------------------------------------------------------------------------------------

  /** The shared disk and the independent disks side by side, with the replies both have given. */
  datatype Both = Both(shared: seq<Block>, sharedReplies: seq<Reply>, alone: seq<seq<Block>>, aloneReplies: seq<Reply>)

  function BothServe(owners: seq<seq<Partition>>, b: Both, r: Request): Both {
    if r.client >= |owners| || r.client >= |b.alone| then b
    else
      var (reply, disk) := Serve(owners, b.shared, r);
      var (replyAlone, diskAlone) := ServeAlone(owners[r.client], b.alone[r.client], r);
      Both(disk, b.sharedReplies + [reply], b.alone[r.client := diskAlone], b.aloneReplies + [replyAlone])
  }

  predicate Same(owners: seq<seq<Partition>>, b: Both) {
    && Sound(owners, |b.shared|)
    && b.alone == VirtualDisks(owners, b.shared)
    && b.sharedReplies == b.aloneReplies
  }

  lemma StepRefines(owners: seq<seq<Partition>>, b: Both, r: Request)
    requires Same(owners, b) && InOnePartition(owners, r)
    ensures Same(owners, BothServe(owners, b, r))
  {
    var (reply, disk) := Serve(owners, b.shared, r);
    if r.Read? {
      ReadRefines(owners, b.shared, r);
    } else {
      WriteRefines(owners, b.shared, r);
    }
    var after := BothServe(owners, b, r);
    assert forall d :: 0 <= d < |owners| ==> after.alone[d] == Virtual(disk, owners[d]);
    assert after.alone == VirtualDisks(owners, disk);
  }

  /**
   Over every run of requests, each inside one virtual partition, the shared disk gives the replies that independent
   disks would give, one per client, and holds their contents.
   */
  lemma SharedRefinesIndependent(owners: seq<seq<Partition>>, disk: seq<Block>, requests: seq<Request>)
    requires Sound(owners, |disk|)
    requires forall r :: r in requests ==> InOnePartition(owners, r)
    ensures var b := Fold((b, r) => BothServe(owners, b, r), Both(disk, [], VirtualDisks(owners, disk), []), requests);
            b.sharedReplies == b.aloneReplies && Sound(owners, |b.shared|) && b.alone == VirtualDisks(owners, b.shared)
  {
    var step := (b, r) => BothServe(owners, b, r);
    var inv := (b: Both) => Same(owners, b);
    var allowed := (r: Request) => InOnePartition(owners, r);
    forall b, r | inv(b) && allowed(r)
      ensures inv(step(b, r))
    {
      StepRefines(owners, b, r);
    }
    FoldKeeps(step, inv, allowed, Both(disk, [], VirtualDisks(owners, disk), []), requests);
  }

  /** A client's own last write is what it reads back, whatever the other clients have done in between. */
  lemma ReadsOwnWrite(owners: seq<seq<Partition>>, disk: seq<Block>, w: Request, others: seq<Request>)
    requires Sound(owners, |disk|) && InOnePartition(owners, w) && w.Write?
    requires Serve(owners, disk, w).0 == Accepted && w.sector >= VIRT_START_SECTOR
    requires forall r :: r in others ==> InOnePartition(owners, r) && r.client != w.client
    ensures var later := Fold((d, r) => Served(owners, d, r), Serve(owners, disk, w).1, others);
            Serve(owners, later, Read(w.client, w.sector, w.len)).0 == Blocks(w.packet)
  {
    var own := owners[w.client];
    var written := Serve(owners, disk, w).1;
    WriteRefines(owners, disk, w);
    var mine := Virtual(written, own);
    var step := (d, r) => Served(owners, d, r);
    var inv := (d: seq<Block>) => |d| == |disk| && Virtual(d, own) == mine;
    var allowed := (r: Request) => InOnePartition(owners, r) && r.client != w.client;
    forall d, r | inv(d) && allowed(r)
      ensures inv(step(d, r))
    {
      if r.Read? {
        ReadRefines(owners, d, r);
      } else {
        WriteRefines(owners, d, r);
      }
    }
    FoldKeeps(step, inv, allowed, written, others);
    ReadRefines(owners, Fold(step, written, others), Read(w.client, w.sector, w.len));
  }

  function Served(owners: seq<seq<Partition>>, disk: seq<Block>, r: Request): seq<Block> {
    if r.client < |owners| then Serve(owners, disk, r).1 else disk
  }

  // ---- Isolation ---------------------------------------------------------------------------------------

  /**
   Only the first sector of a request is checked, and that one is always the client's own - also for a table that runs
   past 2^32 sectors, since an entry that wraps holds no sector.
   */
  lemma FirstSectorOwn(own: seq<Partition>, size: nat, sector: nat)
    requires InDisk(own, size) && size <= TWO_32 && Locate(Table(own), sector, 0) < |own|
    ensures var i := Locate(Table(own), sector, 0);
            var k := sector - Table(own)[i].start;
            0 <= k < own[i].sectors && Physical(own, i, sector) == own[i].start + k
  {
    LocateHits(Table(own), sector, 0);
  }

  lemma {:induction false} LocateHits(table: seq<Partition>, sector: nat, i: nat)
    requires i <= |table|
    ensures var r := Locate(table, sector, i);
            r < |table| ==> Hit(table[r], sector)
    decreases |table| - i
  {
    if i < |table| && !Hit(table[i], sector) {
      LocateHits(table, sector, i + 1);
    }
  }

  /** No partition of another client has a sector among the n from p on. */
  predicate ClearOfOthers(owners: seq<seq<Partition>>, c: nat, p: nat, n: nat) {
    forall d, j :: 0 <= d < |owners| && d != c && 0 <= j < |owners[d]| ==> Clear(owners[d][j], p, n)
  }

  predicate OthersKeep(owners: seq<seq<Partition>>, c: nat, disk: seq<Block>, after: seq<Block>)
    requires OnDisk(owners, |disk|) && |after| == |disk|
  {
    forall d :: 0 <= d < |owners| && d != c ==> Virtual(after, owners[d]) == Virtual(disk, owners[d])
  }

  /**
   A located write that is on the disk leaves every other client's disk alone, whatever the data, exactly if the
   sectors from the translated one on meet no other client's partition.
   */
  lemma IsolatedIff(owners: seq<seq<Partition>>, disk: seq<Block>, c: nat, sector: nat, len: nat)
    requires OnDisk(owners, |disk|) && c < |owners| && len <= BUF_SIZE && VIRT_START_SECTOR <= sector
    requires var i, n := Locate(Table(owners[c]), sector, 0), len / BLOCK_SIZE;
             i < |owners[c]| && Physical(owners[c], i, sector) + n <= |disk|
    ensures var n := len / BLOCK_SIZE;
            (forall packet: seq<Block> :: |packet| == n ==>
               OthersKeep(owners, c, disk, Serve(owners, disk, Write(c, sector, len, packet)).1))
            <==> ClearOfOthers(owners, c, Physical(owners[c], Locate(Table(owners[c]), sector, 0), sector), n)
  {
    var n := len / BLOCK_SIZE;
    var p := Physical(owners[c], Locate(Table(owners[c]), sector, 0), sector);
    if ClearOfOthers(owners, c, p, n) {
      forall packet: seq<Block> | |packet| == n
        ensures OthersKeep(owners, c, disk, Serve(owners, disk, Write(c, sector, len, packet)).1)
      {
        ClearKeeps(owners, c, disk, p, packet);
      }
    } else {
      var packet := Intrusion(owners, c, disk, p, n);
      assert Serve(owners, disk, Write(c, sector, len, packet)).1 == Overwrite(disk, p, packet);
    }
  }

  lemma ClearKeeps(owners: seq<seq<Partition>>, c: nat, disk: seq<Block>, p: nat, packet: seq<Block>)
    requires OnDisk(owners, |disk|) && Inside(p, |packet|, |disk|) && ClearOfOthers(owners, c, p, |packet|)
    ensures OthersKeep(owners, c, disk, Overwrite(disk, p, packet))
  {
    forall d | 0 <= d < |owners| && d != c
      ensures Virtual(Overwrite(disk, p, packet), owners[d]) == Virtual(disk, owners[d])
    {
      WriteElsewhere(disk, owners[d], |owners[d]|, p, packet);
    }
  }

  /** Data that shows in another client's disk, if the sectors meet one of its partitions. */
  lemma Intrusion(owners: seq<seq<Partition>>, c: nat, disk: seq<Block>, p: nat, n: nat) returns (packet: seq<Block>)
    requires OnDisk(owners, |disk|) && Inside(p, n, |disk|) && !ClearOfOthers(owners, c, p, n)
    ensures |packet| == n && !OthersKeep(owners, c, disk, Overwrite(disk, p, packet))
  {
    var d, j :| 0 <= d < |owners| && d != c && 0 <= j < |owners[d]| && !Clear(owners[d][j], p, n);
    var q := owners[d][j];
    var s := if p < q.start then q.start else p;
    var changed := Block(disk[s].bytes + [0]);
    packet := disk[p..p + n][s - p := changed];
    var after := Overwrite(disk, p, packet);
    assert after[s] == changed && |changed.bytes| != |disk[s].bytes|;
    ChangeShows(disk, after, owners[d], j, s);
  }

  /** A sector of a partition is part of the client's disk. */
  lemma ChangeShows(disk: seq<Block>, after: seq<Block>, own: seq<Partition>, j: nat, s: nat)
    requires InDisk(own, |disk|) && |after| == |disk| && j < |own|
    requires own[j].start <= s < own[j].start + own[j].sectors && after[s] != disk[s]
    ensures Virtual(after, own) != Virtual(disk, own)
  {
    var k := s - own[j].start;
    var at := Size(own, j) + k;
    ReadWithin(disk, own, j, k, 1, s, at, |own|);
    ReadWithin(after, own, j, k, 1, s, at, |own|);
    assert disk[s..s + 1][0] != after[s..s + 1][0];
  }

  /**
   The check is not enough: of two clients with one sector each, side by side on the disk, the first writes two sectors
   from its first on.  The write is accepted and is what the second client then has on its disk.
   */
  lemma IsolationFails(disk: seq<Block>, packet: seq<Block>)
    requires 102 <= |disk| <= TWO_32 && |packet| == 2 && packet[1] != disk[101]
    ensures var owners := [[Partition(100, 1)], [Partition(101, 1)]];
            var (reply, after) := Serve(owners, disk, Write(0, VIRT_START_SECTOR, 1024, packet));
            && Sound(owners, |disk|)
            && reply == Accepted && |after| == |disk|
            && Virtual(disk, owners[1]) == [disk[101]] && Virtual(after, owners[1]) == [packet[1]]
  {
    var owners := [[Partition(100, 1)], [Partition(101, 1)]];
    var own := owners[0];
    assert Size(own, 0) == 0 && Size(own, 1) == 1;
    assert Hit(Table(own)[0], VIRT_START_SECTOR) && Physical(own, 0, VIRT_START_SECTOR) == 100;
    var after := Serve(owners, disk, Write(0, VIRT_START_SECTOR, 1024, packet)).1;
    assert after == Overwrite(disk, 100, packet);
    SecondOnly(disk);
    SecondOnly(after);
  }

  lemma SecondOnly(disk: seq<Block>)
    requires 102 <= |disk|
    ensures Virtual(disk, [Partition(101, 1)]) == [disk[101]]
  {
    var own := [Partition(101, 1)];
    assert Prefix(disk, own, 1) == Prefix(disk, own, 0) + Slice(disk, own[0]);
  }
}
