/** What a client sees of its disk: the partition table, the header sectors, its data, and what it is refused. */
module SataRequests {
  import opened Basics
  import opened SataDisks

  function ReadReply(owners: seq<seq<Partition>>, disk: seq<Block>, c: nat, sector: nat, len: nat): Reply
    requires c < |owners|
  {
    Serve(owners, disk, Read(c, sector, len)).0
  }

  /** Some entry of a partition table holds the sector. */
  predicate Listed(table: seq<Partition>, sector: nat) {
    exists i :: 0 <= i < |table| && table[i].start <= sector < table[i].start + table[i].sectors
  }

  /** The lookup finds a sector exactly if an entry of the table holds it. */
  lemma ListedIsLocated(own: seq<Partition>, sector: nat)
    requires Fits(own) && VIRT_START_SECTOR <= sector
    ensures Listed(Table(own), sector) <==> Locate(Table(own), sector, 0) < |own|
    ensures Listed(Table(own), sector) <==> sector < VIRT_START_SECTOR + Size(own, |own|)
  {
    var r := Locate(Table(own), sector, 0);
    LocateFinds(own, sector, 0);
    if r < |own| {
      TableEntry(own, r);
    }
    if Listed(Table(own), sector) {
      var i :| 0 <= i < |own| && Table(own)[i].start <= sector < Table(own)[i].start + Table(own)[i].sectors;
      TableEntry(own, i);
    }
  }

  /**
   A read of sector 0 gives the client a partition table, with one entry for each of its partitions, in order and of
   the same size; the sectors its entries hold are exactly those of the data requests that are carried out or refused
   by the disk, and all others from sector 64 on are refused.
   */
  lemma TableIsRead(owners: seq<seq<Partition>>, disk: seq<Block>, c: nat, len: nat)
    requires c < |owners| && len <= BUF_SIZE && Fits(owners[c])
    ensures var reply := ReadReply(owners, disk, c, 0, len);
            && reply.Partitions?
            && |reply.table| == |owners[c]|
            && (forall i :: 0 <= i < |owners[c]| ==> reply.table[i].sectors == owners[c][i].sectors)
            && (forall i, j :: 0 <= i < j < |owners[c]| ==>
                  64 <= reply.table[i].start <= reply.table[i].start + reply.table[i].sectors <= reply.table[j].start)
            && (forall sector: nat :: sector >= 64 ==>
                  (Listed(reply.table, sector) <==> Locate(Table(owners[c]), sector, 0) < |owners[c]|))
            && (forall sector: nat, n: nat :: sector >= 64 && n <= BUF_SIZE && !Listed(reply.table, sector) ==>
                  ReadReply(owners, disk, c, sector, n) == Refused)
  {
    var own := owners[c];
    forall i, j | 0 <= i < j < |own|
      ensures 64 <= Table(own)[i].start <= Table(own)[i].start + Table(own)[i].sectors <= Table(own)[j].start
    {
      TableEntry(own, i);
      TableEntry(own, j);
      SizeMonotone(own, i + 1, j);
    }
    forall sector: nat | sector >= 64
      ensures Listed(Table(own), sector) <==> Locate(Table(own), sector, 0) < |own|
    {
      ListedIsLocated(own, sector);
    }
  }

  /** The capacity of a client's disk is the end of the sectors its table lists. */
  lemma CapacityIsEnd(own: seq<Partition>, sector: nat)
    requires Fits(own) && VIRT_START_SECTOR <= sector
    ensures StartOf(own, |own|) % TWO_32 == VIRT_START_SECTOR + Size(own, |own|)
    ensures Listed(Table(own), sector) <==> sector < StartOf(own, |own|) % TWO_32
  {
    ListedIsLocated(own, sector);
  }

  /**
   The sectors between the table and the data read as zeros.  Writes below the data are acknowledged and change
   nothing, so no later request of any client can tell that they were made.
   */
  lemma HeaderSectors(owners: seq<seq<Partition>>, disk: seq<Block>, c: nat, sector: nat, len: nat,
                      packet: seq<Block>, r: Request)
    requires c < |owners| && len <= BUF_SIZE && sector < 64 && r.client < |owners|
    ensures sector > 0 ==> ReadReply(owners, disk, c, sector, len) == Zeros
    ensures var (reply, after) := Serve(owners, disk, Write(c, sector, len, packet));
            reply == Accepted && Serve(owners, after, r) == Serve(owners, disk, r)
  {
  }

  /** A request of more than one page is refused and changes nothing. */
  lemma TooLong(owners: seq<seq<Partition>>, disk: seq<Block>, r: Request)
    requires r.client < |owners| && r.len > 4096
    ensures Serve(owners, disk, r) == (Refused, disk)
  {
  }

  /**
   A data request inside one of the client's partitions is never refused: a read gives exactly the blocks of the
   client's disk from its sector on, as many as fit in the length, and a write puts its blocks in their place and
   changes nothing else of any client's disk.
   */
  lemma DataServed(owners: seq<seq<Partition>>, disk: seq<Block>, r: Request)
    requires Sound(owners, |disk|) && InOnePartition(owners, r)
    requires r.len <= 4096 && r.sector >= 64 && Listed(Table(owners[r.client]), r.sector)
    ensures var own := owners[r.client];
            var (reply, after) := Serve(owners, disk, r);
            var k, n, mine := r.sector - 64, r.len / 512, Virtual(disk, own);
            && k + n <= |mine| && |after| == |disk|
            && (r.Read? ==> reply == Blocks(mine[k..k + n]) && after == disk)
            && (r.Write? ==>
                  reply == Accepted && Virtual(after, own) == mine[..k] + r.packet + mine[k + n..]
                  && OthersKeep(owners, r.client, disk, after))
  {
    Bounds(owners, disk, r);
    if r.Read? {
      ReadServed(owners, disk, r);
    } else {
      WriteServed(owners, disk, r);
    }
  }

  lemma ReadServed(owners: seq<seq<Partition>>, disk: seq<Block>, r: Request)
    requires Sound(owners, |disk|) && InOnePartition(owners, r) && r.Read? && r.len <= 4096 && r.sector >= 64
    requires var own := owners[r.client];
             r.sector - 64 < Size(own, |own|) && r.sector - 64 + r.len / 512 <= Size(own, |own|)
    ensures var k, n := r.sector - 64, r.len / 512;
            Serve(owners, disk, r) == (Blocks(Virtual(disk, owners[r.client])[k..k + n]), disk)
  {
    ReadRefines(owners, disk, r);
  }

  lemma Bounds(owners: seq<seq<Partition>>, disk: seq<Block>, r: Request)
    requires Sound(owners, |disk|) && InOnePartition(owners, r)
    requires r.len <= 4096 && r.sector >= 64 && Listed(Table(owners[r.client]), r.sector)
    ensures var own := owners[r.client];
            r.sector - 64 < Size(own, |own|) && r.sector - 64 + r.len / 512 <= Size(own, |own|)
  {
    var own, n := owners[r.client], r.len / BLOCK_SIZE;
    ListedIsLocated(own, r.sector);
    Landing(own, |disk|, r.sector, n);
    var i := Locate(Table(own), r.sector, 0);
    WithinSize(own, i, r.sector - StartOf(own, i) + n, |own|);
  }

  lemma WriteServed(owners: seq<seq<Partition>>, disk: seq<Block>, r: Request)
    requires Sound(owners, |disk|) && InOnePartition(owners, r) && r.Write? && r.len <= 4096 && r.sector >= 64
    requires var own := owners[r.client];
             r.sector - 64 < Size(own, |own|) && r.sector - 64 + r.len / 512 <= Size(own, |own|)
    ensures var own := owners[r.client];
            var (reply, after) := Serve(owners, disk, r);
            var k, n, mine := r.sector - 64, r.len / 512, Virtual(disk, own);
            && |after| == |disk| && reply == Accepted
            && Virtual(after, own) == mine[..k] + r.packet + mine[k + n..]
            && OthersKeep(owners, r.client, disk, after)
  {
    WriteRefines(owners, disk, r);
    var mine := Virtual(disk, owners[r.client]);
    assert ServeAlone(owners[r.client], mine, r) == (Accepted, Overwrite(mine, r.sector - 64, r.packet));
  }
}
