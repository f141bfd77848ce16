/**
 The cached FAT of fat.c: GetFATLink, FileNextSector and FileSeek share one buffered sector, and
 any number of files walk along their cluster chains through it.
 */
module ClusterWalk {
  import opened BitString

  type Octet = x: int | 0 <= x < 256

  const SECTOR := 512
  const NO_SECTOR := 0xFFFF_FFFF       // buffered_fat_index when nothing is buffered

  type Sector = s: seq<Octet> | |s| == SECTOR witness seq(SECTOR, _ => 0)

  /** What stays the same: the disk, by sector, and where and what its FAT is. */
  datatype Volume = Volume(disk: nat -> Sector, fat32: bool, fatStart: nat, clusterSize: nat) {
    predicate Valid() {
      clusterSize > 0
    }

    /** Links in a sector of the FAT. */
    function PerSector(): nat {
      if fat32 then 128 else 256
    }

    /** The link that stands at an index of a FAT sector. */
    function LinkIn(s: Sector, i: nat): (link: nat)
      requires i < PerSector()
    {
      if fat32 then (Short(s, 2 * i) + 0x1_0000 * Short(s, 2 * i + 1)) % 0x1000_0000 else Short(s, i)
    }

    /** Two octets, the lower one first. */
    function Short(s: Sector, i: nat): nat
      requires i < 256
    {
      s[2 * i] as int + 0x100 * (s[2 * i + 1] as int)
    }

    /** The entry of the FAT for a cluster. */
    function Link(cluster: nat): nat {
      LinkIn(disk(fatStart + cluster / PerSector()), cluster % PerSector())
    }

    /** The octet at an address of the disk. */
    function OctetAt(a: nat): Octet {
      disk(a / SECTOR)[a % SECTOR]
    }

    /** The cluster of a file that a sector lies in, counted from its start. */
    function ClusterOf(sector: nat): nat
      requires Valid()
    {
      sector / clusterSize
    }

    /** The mark that FileSeek takes for the end of a chain. */
    function EndMark(): nat {
      if fat32 then 0x0FFF_FFFF else 0xFFFF
    }

    /** The k-th cluster of a chain. */
    function Chain(start: nat, k: nat): nat {
      if k == 0 then start else Link(Chain(start, k - 1))
    }
  }

  // ----- links as they are stored

  /** The union of the buffered sector, as a machine that stores the higher octet first loads it. */
  function Word(s: Sector, i: nat): nat
    requires i < 256
  {
    0x100 * (s[2 * i] as int) + s[2 * i + 1] as int
  }

  function LongWord(s: Sector, i: nat): nat
    requires i < 128
  {
    0x1_0000 * Word(s, 2 * i) + Word(s, 2 * i + 1)
  }

  /** The instruction rol.w #8: the lower word of a register is rotated, the upper one stays. */
  function RolW8(w: nat): (r: nat) {
    0x1_0000 * (w / 0x1_0000) + 0x100 * (w % 0x100) + w % 0x1_0000 / 0x100
  }

  /** The instruction swap: the two words of a register are exchanged. */
  function SwapWords(w: nat): (r: nat) {
    0x1_0000 * (w % 0x1_0000) + w / 0x1_0000
  }

  function SwapBB(w: nat): (r: nat) {
    RolW8(w)
  }

  function SwapBBBB(w: nat): (r: nat) {
    RolW8(SwapWords(RolW8(w)))
  }

  lemma RolIs(high: nat, a: Octet, b: Octet)
    ensures RolW8(0x1_0000 * high + (0x100 * a + b)) == 0x1_0000 * high + (0x100 * b + a)
  {
    var w := 0x1_0000 * high + (0x100 * a + b);
    DivModUnique(w, 0x1_0000, high, 0x100 * a + b);
    DivModUnique(w, 0x100, 0x100 * high + a, b);
    DivModUnique(0x100 * a + b, 0x100, a, b);
  }

  /** SwapBB exchanges the two octets of a word. */
  lemma SwapIs(a: Octet, b: Octet)
    ensures SwapBB(0x100 * a + b) == 0x100 * b + a
  {
    RolIs(0, a, b);
  }

  /** SwapBBBB reverses the four octets of a long word. */
  lemma LongSwapIs(a: Octet, b: Octet, c: Octet, d: Octet)
    ensures SwapBBBB(0x1_0000 * (0x100 * a + b) + (0x100 * c + d)) == 0x1_0000 * (0x100 * d + c) + (0x100 * b + a)
  {
    hide RolW8, SwapWords;
    var high, low := 0x100 * a + b, 0x100 * d + c;
    RolIs(high, c, d);
    SwapWordsIs(high, low);
    RolIs(low, a, b);
  }

  lemma SwapWordsIs(high: nat, low: nat)
    requires low < 0x1_0000
    ensures SwapWords(0x1_0000 * high + low) == 0x1_0000 * low + high
  {
    DivModUnique(0x1_0000 * high + low, 0x1_0000, high, low);
  }

  lemma LongWordIs(s: Sector, i: nat)
    requires i < 128
    ensures LongWord(s, i) == 0x1_0000 * (0x100 * (s[4 * i] as int) + s[4 * i + 1] as int)
                              + (0x100 * (s[4 * i + 2] as int) + s[4 * i + 3] as int)
  {
  }

  lemma LongLinkIs(v: Volume, s: Sector, i: nat)
    requires v.fat32 && i < 128
    ensures v.LinkIn(s, i) == (0x1_0000 * (0x100 * (s[4 * i + 3] as int) + s[4 * i + 2] as int)
                               + (0x100 * (s[4 * i + 1] as int) + s[4 * i] as int)) % 0x1000_0000
  {
  }

  /** Loading and exchanging the octets gives the link. */
  lemma SwappedIsLink(v: Volume, s: Sector, i: nat)
    requires i < v.PerSector()
    ensures v.LinkIn(s, i)
         == if v.fat32 then SwapBBBB(LongWord(s, i)) % 0x1000_0000 else SwapBB(Word(s, i))
  {
    hide SwapBB, SwapBBBB;
    if v.fat32 {
      LongSwapIs(s[4 * i], s[4 * i + 1], s[4 * i + 2], s[4 * i + 3]);
      LongWordIs(s, i);
      LongLinkIs(v, s, i);
      hide *;
    } else {
      SwapIs(s[2 * i], s[2 * i + 1]);
    }
  }

  lemma AddressInSector(v: Volume, cluster: nat, size: nat, k: nat)
    requires (size == 2 && v.PerSector() == 256) || (size == 4 && v.PerSector() == 128)
    requires k < size
    ensures v.OctetAt(v.fatStart * SECTOR + size * cluster + k)
         == v.disk(v.fatStart + cluster / v.PerSector())[size * (cluster % v.PerSector()) + k]
  {
    var q, r := cluster / v.PerSector(), cluster % v.PerSector();
    assert cluster == q * v.PerSector() + r;
    DivModUnique(v.fatStart * SECTOR + size * cluster + k, SECTOR, v.fatStart + q, size * r + k);
  }

  /** A FAT16 stores the link of a cluster in two octets, the lower one first, at twice its number. */
  lemma LinkIsStored16(v: Volume, cluster: nat, a: Octet, b: Octet)
    requires !v.fat32
    requires v.OctetAt(v.fatStart * SECTOR + 2 * cluster) == a
    requires v.OctetAt(v.fatStart * SECTOR + 2 * cluster + 1) == b
    ensures v.Link(cluster) == (a as int) + 0x100 * (b as int)
  {
    AddressInSector(v, cluster, 2, 0);
    AddressInSector(v, cluster, 2, 1);
  }

  /** A FAT32 stores it in four octets, the lowest one first, of which the highest four bits do not count. */
  lemma LinkIsStored32(v: Volume, cluster: nat, a: Octet, b: Octet, c: Octet, d: Octet)
    requires v.fat32
    requires v.OctetAt(v.fatStart * SECTOR + 4 * cluster) == a
    requires v.OctetAt(v.fatStart * SECTOR + 4 * cluster + 1) == b
    requires v.OctetAt(v.fatStart * SECTOR + 4 * cluster + 2) == c
    requires v.OctetAt(v.fatStart * SECTOR + 4 * cluster + 3) == d
    ensures v.Link(cluster)
         == (a as int) + 0x100 * (b as int) + 0x1_0000 * (c as int) + 0x100_0000 * (d as int % 0x10)
  {
    AddressInSector(v, cluster, 4, 0);
    AddressInSector(v, cluster, 4, 1);
    AddressInSector(v, cluster, 4, 2);
    AddressInSector(v, cluster, 4, 3);
    assert d as int == 0x10 * (d as int / 0x10) + d as int % 0x10;
    var low := (a as int) + 0x100 * (b as int) + 0x1_0000 * (c as int);
    DivModUnique(low + 0x100_0000 * (d as int), 0x1000_0000, d as int / 0x10, low + 0x100_0000 * (d as int % 0x10));
  }

  /** The mark for the end of a chain is the greatest link there is: all bits are ones. */
  lemma EndMarkIsAllOnes(v: Volume, cluster: nat)
    ensures var at := v.fatStart * SECTOR + (if v.fat32 then 4 else 2) * cluster;
            v.Link(cluster) == v.EndMark() <==>
              && v.OctetAt(at) == v.OctetAt(at + 1) == 0xFF
              && (v.fat32 ==> v.OctetAt(at + 2) == 0xFF && v.OctetAt(at + 3) % 0x10 == 0xF)
  {
    var at := v.fatStart * SECTOR + (if v.fat32 then 4 else 2) * cluster;
    if v.fat32 {
      LinkIsStored32(v, cluster, v.OctetAt(at), v.OctetAt(at + 1), v.OctetAt(at + 2), v.OctetAt(at + 3));
    } else {
      LinkIsStored16(v, cluster, v.OctetAt(at), v.OctetAt(at + 1));
    }
    hide Volume.Link, Volume.OctetAt;
  }

  /** Cluster k of a file holds its sectors from k times the cluster size on. */
  lemma SectorsOfCluster(v: Volume, k: nat, r: nat)
    requires r < v.clusterSize
    ensures v.ClusterOf(k * v.clusterSize + r) == k
  {
    DivModUnique(k * v.clusterSize + r, v.clusterSize, k, r);
  }

  /** fileTYPE, as far as the walk goes. */
  class File {
    var sector: nat
    var cluster: nat
    const startCluster: nat

    constructor (startCluster: nat)
      ensures sector == 0 && cluster == startCluster && this.startCluster == startCluster
    {
      this.startCluster := startCluster;
      sector, cluster := 0, startCluster;
    }

    /** The cluster is the one that the sector number says. */
    predicate InStep(v: Volume)
      requires v.Valid()
      reads this
    {
      cluster == v.Chain(startCluster, v.ClusterOf(sector))
    }

    /** The cluster is the end mark behind that of the sector. */
    predicate OnEndMark(v: Volume)
      requires v.Valid()
      reads this
    {
      cluster == v.EndMark() == v.Chain(startCluster, v.ClusterOf(sector) + 1)
    }
  }

  /** A file that has run off its chain is out of step, unless the chain had ended before. */
  lemma OffTheChain(file: File, v: Volume)
    requires v.Valid() && file.OnEndMark(v)
    ensures file.InStep(v) <==> v.Chain(file.startCluster, v.ClusterOf(file.sector)) == v.EndMark()
  {
  }

  class Fat {
    const v: Volume
    const reliable: bool               // no read of the card ever fails
    var buffer: array<Octet>           // fat_buffer
    var bufferedIndex: nat             // buffered_fat_index
    ghost var failures: nat            // reads that have failed

    /** The buffered sector matches the disk. */
    ghost predicate Valid()
      reads this, buffer
    {
      && v.Valid() && buffer.Length == SECTOR
      && (bufferedIndex != NO_SECTOR ==> buffer[..] == v.disk(v.fatStart + bufferedIndex))
    }

    constructor (v: Volume, reliable: bool)
      requires v.Valid()
      ensures Valid() && this.v == v && this.reliable == reliable && fresh(buffer) && failures == 0
    {
      this.v, this.reliable := v, reliable;
      buffer := new Octet[SECTOR](_ => 0);
      bufferedIndex, failures := NO_SECTOR, 0;
    }

    /** sd_read_sector: it fills the buffer, or fails and leaves it alone. */
    method ReadSector(lba: nat) returns (ok: bool)
      requires buffer.Length == SECTOR
      modifies buffer, `failures
      ensures ok ==> buffer[..] == v.disk(lba) && failures == old(failures)
      ensures !ok ==> buffer[..] == old(buffer[..]) && failures == old(failures) + 1 && !reliable
    {
      ok := true;
      if !reliable {
        ok := *;
      }
      if ok {
        var data := v.disk(lba);
        forall i | 0 <= i < SECTOR {
          buffer[i] := data[i];
        }
      } else {
        failures := failures + 1;
      }
    }

    /** Get the FAT sector into the buffer, unless it is there. */
    method Load(index: nat) returns (ok: bool)
      requires Valid() && index < NO_SECTOR
      modifies this, buffer
      ensures Valid() && buffer == old(buffer)
      ensures ok ==> bufferedIndex == index && buffer[..] == v.disk(v.fatStart + index) && failures == old(failures)
      ensures !ok ==> failures == old(failures) + 1 && !reliable
      ensures old(bufferedIndex) == index ==> ok
    {
      ok := true;
      if index != bufferedIndex {
        ok := ReadSector(v.fatStart + index);
        if ok {
          bufferedIndex := index;
        }
      }
    }

    /** A cluster number that a FAT can hold. */
    predicate InRange(cluster: nat) {
      cluster < 0x1000_0000
    }

    /** The link in the buffer. */
    method Fetch(cluster: nat) returns (ok: bool, link: nat)
      requires Valid() && InRange(cluster)
      modifies this, buffer
      ensures Valid() && buffer == old(buffer)
      ensures ok ==> link == v.Link(cluster) && InRange(link) && failures == old(failures)
      ensures !ok ==> failures == old(failures) + 1 && !reliable
      ensures old(bufferedIndex) == cluster / v.PerSector() ==> ok
      ensures ok ==> bufferedIndex == cluster / v.PerSector()
    {
      hide Volume.LinkIn, Word, LongWord, SwapBB, SwapBBBB, Volume.Link;
      var sb, i := cluster / v.PerSector(), cluster % v.PerSector();
      ok := Load(sb);
      link := 0;
      if ok {
        link := if v.fat32 then SwapBBBB(LongWord(buffer[..], i)) % 0x1000_0000 else SwapBB(Word(buffer[..], i));
        LinkLoaded(v, buffer[..], cluster);
      }
    }

    /** GetFATLink: 0 when the sector cannot be read; a sector that is in the buffer is not read again. */
    method GetFatLink(cluster: nat) returns (link: nat)
      requires Valid() && InRange(cluster)
      modifies this, buffer
      ensures Valid() && buffer == old(buffer)
      ensures failures == old(failures) ==> link == v.Link(cluster)
      ensures failures > old(failures) ==> link == 0 && !reliable
      ensures failures >= old(failures)
      ensures old(bufferedIndex) == cluster / (if v.fat32 then 128 else 256) ==> failures == old(failures)
      ensures failures == old(failures) ==> bufferedIndex == cluster / if v.fat32 then 128 else 256
    {
      var ok;
      ok, link := Fetch(cluster);
      if !ok {
        link := 0;
      }
    }

    /** FileNextSector: it fails only when the FAT cannot be read. */
    method FileNextSector(file: File) returns (ok: bool)
      requires Valid() && file.InStep(v) && InRange(file.cluster)
      modifies this, buffer, file
      ensures Valid() && buffer == old(buffer)
      ensures (ok <==> failures == old(failures)) && failures >= old(failures) && (!ok ==> !reliable)
      ensures ok ==> file.InStep(v) && file.sector == old(file.sector) + 1 && InRange(file.cluster)
    {
      hide Volume.Link, Volume.ClusterOf, Volume.Chain;
      ok := true;
      file.sector := file.sector + 1;
      NextInChain(v, file.sector - 1);
      OneLink(file.startCluster, v.ClusterOf(file.sector - 1));
      if file.sector % v.clusterSize == 0 {
        var link;
        ok, link := Fetch(file.cluster);
        if ok {
          file.cluster := link;
        }
      }
    }

    /** The chain ends before cluster `to` if one after cluster `from` is the end mark. */
    ghost predicate Lasts(start: nat, from: nat, to: nat)
    {
      forall k :: from < k <= to ==> v.Chain(start, k) != v.EndMark()
    }

    lemma EndsBefore(start: nat, from: nat, k: nat, to: nat)
      requires from < k <= to && v.Chain(start, k) == v.EndMark()
      ensures !Lasts(start, from, to)
    {
    }

    lemma LastsOneMore(start: nat, from: nat, k: nat)
      requires Lasts(start, from, k) && v.Chain(start, k + 1) != v.EndMark()
      ensures Lasts(start, from, k + 1)
    {
    }

    lemma LastsNowhere(start: nat, from: nat)
      ensures Lasts(start, from, from)
    {
    }

    lemma OneLink(start: nat, k: nat)
      ensures v.Chain(start, k + 1) == v.Link(v.Chain(start, k))
    {
    }

    /** Where the walk to `target` sets out from. */
    function SetsOut(sector: nat, target: nat): nat
      requires v.Valid()
    {
      if sector > target && v.ClusterOf(sector) != v.ClusterOf(target) then 0 else v.ClusterOf(sector)
    }

    /**
     FileSeek to a sector of the file. It succeeds, unless the FAT cannot be read or the walk meets the
     end of the chain; and then the file stands on the cluster of that sector. Within a cluster nothing
     is looked up. If a read fails, the file stays in step, where the walk had come to. If the chain
     ends, it does not: its cluster is the end mark, and its sector still that of the cluster before.
     */
    method FileSeek(file: File, offset: nat, fromCurrent: bool) returns (ok: bool)
      requires Valid() && file.InStep(v) && InRange(file.cluster) && InRange(file.startCluster)
      modifies this, buffer, file
      ensures Valid() && buffer == old(buffer)
      ensures var target := if fromCurrent then offset + old(file.sector) else offset;
              && (ok ==> file.InStep(v) && file.sector == target && InRange(file.cluster))
              && (failures == old(failures) ==>
                    (ok <==> Lasts(file.startCluster, SetsOut(old(file.sector), target), v.ClusterOf(target))))
              && (failures > old(failures) ==> !ok && !reliable && file.InStep(v))
              && (!ok && failures == old(failures) ==> file.OnEndMark(v))
              && failures >= old(failures)
              && (v.ClusterOf(target) == v.ClusterOf(old(file.sector)) ==>
                    ok && file.cluster == old(file.cluster) && bufferedIndex == old(bufferedIndex))
    {
      hide Volume.Link, Volume.ClusterOf, Volume.Chain, Lasts;
      var target := offset;
      if fromCurrent {
        target := target + file.sector;
      }
      ghost var from := SetsOut(file.sector, target);
      if file.sector > target {
        if v.ClusterOf(file.sector) != v.ClusterOf(target) {
          file.cluster := file.startCluster;
          file.sector := 0;
          ZeroCluster(v);
        } else {
          file.sector := target;
        }
      }
      LaterCluster(v, file.sector, target);
      ok := WalkTo(file, target, from);
      if ok {
        file.sector := target;
      }
    }

    /** From cluster to cluster, forwards. */
    method WalkTo(file: File, target: nat, ghost from: nat) returns (ok: bool)
      requires Valid() && file.InStep(v) && InRange(file.cluster)
      requires from == v.ClusterOf(file.sector) <= v.ClusterOf(target)
      modifies this, buffer, file
      ensures Valid() && buffer == old(buffer)
      ensures ok ==> file.InStep(v) && v.ClusterOf(file.sector) == v.ClusterOf(target) && InRange(file.cluster)
      ensures failures == old(failures) ==> (ok <==> Lasts(file.startCluster, from, v.ClusterOf(target)))
      ensures failures > old(failures) ==> !ok && !reliable && file.InStep(v)
      ensures !ok && failures == old(failures) ==> file.OnEndMark(v)
      ensures failures >= old(failures)
      ensures from == v.ClusterOf(target) ==>
                ok && file.cluster == old(file.cluster) && bufferedIndex == old(bufferedIndex)
    {
      hide Volume.Link, Volume.ClusterOf, Volume.Chain, Lasts;
      LastsNowhere(file.startCluster, from);
      while v.ClusterOf(file.sector) != v.ClusterOf(target)
        invariant Valid() && buffer == old(buffer) && file.InStep(v) && InRange(file.cluster)
        invariant from <= v.ClusterOf(file.sector) <= v.ClusterOf(target)
        invariant Lasts(file.startCluster, from, v.ClusterOf(file.sector)) && failures == old(failures)
        invariant from == v.ClusterOf(target) ==>
                    file.cluster == old(file.cluster) && bufferedIndex == old(bufferedIndex)
        decreases v.ClusterOf(target) - v.ClusterOf(file.sector)
      {
        NextCluster(v, file.sector);
        OneLink(file.startCluster, v.ClusterOf(file.sector));
        var link;
        ok, link := Fetch(file.cluster);
        if !ok {
          return;
        }
        file.cluster := link;
        if file.cluster == v.EndMark() {
          EndsBefore(file.startCluster, from, v.ClusterOf(file.sector) + 1, v.ClusterOf(target));
          return false;
        }
        LastsOneMore(file.startCluster, from, v.ClusterOf(file.sector));
        file.sector := file.sector + v.clusterSize;
      }
      ok := true;
    }
  }

  lemma LinkLoaded(v: Volume, s: Sector, cluster: nat)
    requires s == v.disk(v.fatStart + cluster / v.PerSector())
    ensures var i := cluster % v.PerSector();
            v.Link(cluster) == if v.fat32 then SwapBBBB(LongWord(s, i)) % 0x1000_0000 else SwapBB(Word(s, i))
    ensures v.Link(cluster) < 0x1000_0000
  {
    SwappedIsLink(v, s, cluster % v.PerSector());
    LinksAreInRange(v, s, cluster % v.PerSector());
    hide Volume.LinkIn, Word, LongWord, SwapBB, SwapBBBB;
  }

  lemma LinksAreInRange(v: Volume, s: seq<Octet>, i: nat)
    requires |s| == SECTOR && i < v.PerSector()
    ensures v.LinkIn(s, i) < 0x1000_0000
  {
  }

  lemma ZeroCluster(v: Volume)
    requires v.Valid()
    ensures v.ClusterOf(0) == 0 && forall start: nat :: v.Chain(start, 0) == start
  {
    DivModUnique(0, v.clusterSize, 0, 0);
  }

  lemma NextCluster(v: Volume, sector: nat)
    requires v.Valid()
    ensures v.ClusterOf(sector + v.clusterSize) == v.ClusterOf(sector) + 1
  {
    DivMod(sector, v.clusterSize);
    DivModUnique(sector + v.clusterSize, v.clusterSize, sector / v.clusterSize + 1, sector % v.clusterSize);
  }

  lemma DivMod(x: nat, d: nat)
    requires d > 0
    ensures x == x / d * d + x % d && (x / d + 1) * d == x / d * d + d
  {
  }

  /** A later sector is not in an earlier cluster. */
  lemma LaterCluster(v: Volume, a: nat, b: nat)
    requires v.Valid() && a <= b
    ensures v.ClusterOf(a) <= v.ClusterOf(b)
  {
    var c := v.clusterSize;
    DivMod(a, c);
    DivMod(b, c);
    if a / c > b / c {
      MulMonotone(b / c + 1, a / c, c);
    }
  }

  /** One sector on is the next cluster exactly at a cluster's boundary. */
  lemma NextInChain(v: Volume, sector: nat)
    requires v.Valid()
    ensures v.ClusterOf(sector + 1)
         == if (sector + 1) % v.clusterSize == 0 then v.ClusterOf(sector) + 1 else v.ClusterOf(sector)
  {
    var c := v.clusterSize;
    DivMod(sector, c);
    if sector % c + 1 == c {
      DivModUnique(sector + 1, c, sector / c + 1, 0);
    } else {
      DivModUnique(sector + 1, c, sector / c, sector % c + 1);
    }
  }

  // ----- any interleaving

  datatype Op = Seek(file: nat, offset: nat, fromCurrent: bool) | Next(file: nat) | Ask(cluster: nat)

  /** Where a file is after some operations on it and others. */
  function Position(ops: seq<Op>, f: nat): nat {
    if ops == [] then 0
    else
      var before, op := Position(ops[..|ops| - 1], f), ops[|ops| - 1];
      match op
      case Seek(g, offset, fromCurrent) => if g != f then before else if fromCurrent then offset + before else offset
      case Next(g) => if g == f then before + 1 else before
      case Ask(_) => before
  }

  predicate OpsOk(ops: seq<Op>, n: nat) {
    forall i :: 0 <= i < |ops| ==>
      match ops[i]
      case Seek(f, _, _) => f < n
      case Next(f) => f < n
      case Ask(c) => c < 0x1000_0000
  }

  /** Every file stands on the cluster of its sector, and the sector is where its operations have led. */
  ghost predicate AllInStep(v: Volume, files: seq<File>, ops: seq<Op>)
    requires v.Valid()
    reads files
  {
    forall f :: 0 <= f < |files| ==>
      && files[f].InStep(v) && files[f].cluster < 0x1000_0000 && files[f].startCluster < 0x1000_0000
      && files[f].sector == Position(ops, f)
  }

  /** The chain of the file lasts for as long as an operation that comes after others walks along it. */
  ghost predicate Reaches(fat: Fat, files: seq<File>, before: seq<Op>, op: Op)
    requires fat.v.Valid() && OpsOk([op], |files|)
  {
    assert [op][0] == op;
    match op
    case Seek(f, offset, fromCurrent) =>
      var sector := Position(before, f);
      var target := if fromCurrent then offset + sector else offset;
      fat.Lasts(files[f].startCluster, fat.SetsOut(sector, target), fat.v.ClusterOf(target))
    case Next(_) => true
    case Ask(_) => true
  }

  /** The same for every operation of a run. */
  ghost predicate AllReach(fat: Fat, files: seq<File>, ops: seq<Op>)
    requires fat.v.Valid() && OpsOk(ops, |files|)
  {
    forall k :: 0 <= k < |ops| ==> OpsOk([ops[k]], |files|) && Reaches(fat, files, ops[..k], ops[k])
  }

  /** One operation; a link that cannot be read comes back as 0. */
  method RunOne(fat: Fat, files: seq<File>, done: seq<Op>, op: Op) returns (ok: bool, link: nat)
    requires fat.Valid() && OpsOk([op], |files|) && AllInStep(fat.v, files, done)
    requires forall f, g :: 0 <= f < g < |files| ==> files[f] != files[g]
    modifies fat, fat.buffer, files
    ensures fat.Valid() && fat.buffer == old(fat.buffer) && fat.failures >= old(fat.failures)
    ensures fat.failures > old(fat.failures) ==> !fat.reliable
    ensures ok ==> AllInStep(fat.v, files, done + [op])
    ensures fat.failures == old(fat.failures) ==> (ok <==> Reaches(fat, files, done, op))
    ensures op.Ask? && fat.failures == old(fat.failures) ==> link == fat.v.Link(op.cluster)
  {
    hide Volume.Link, Volume.ClusterOf, Volume.Chain, Fat.Lasts, Fat.SetsOut;
    OneMoreOp(done, op);
    assert [op][0] == op;
    ok, link := true, 0;
    match op {
      case Seek(f, offset, fromCurrent) =>
        ok := fat.FileSeek(files[f], offset, fromCurrent);
      case Next(f) =>
        ok := fat.FileNextSector(files[f]);
      case Ask(cluster) =>
        link := fat.GetFatLink(cluster);
    }
  }

  lemma OneMoreOp(ops: seq<Op>, op: Op)
    ensures forall f: nat {:trigger Position(ops + [op], f)} :: Position(ops + [op], f) ==
              match op
              case Seek(g, offset, fromCurrent) =>
                if g != f then Position(ops, f) else if fromCurrent then offset + Position(ops, f) else offset
              case Next(g) => if g == f then Position(ops, f) + 1 else Position(ops, f)
              case Ask(_) => Position(ops, f)
  {
    assert (ops + [op])[..|ops|] == ops;
  }

  /**
   Operations on any number of files, in any order, until one fails: through the one buffered sector
   every file stays on the cluster that is that many links from its start. If every read succeeds, they
   fail exactly when some seek walks past the end of its chain.
   */
  method Run(fat: Fat, files: seq<File>, ops: seq<Op>) returns (ok: bool, links: seq<nat>)
    requires fat.Valid() && OpsOk(ops, |files|)
    requires forall f, g :: 0 <= f < g < |files| ==> files[f] != files[g]
    requires forall f :: 0 <= f < |files| ==>
               files[f].sector == 0 && files[f].cluster == files[f].startCluster < 0x1000_0000
    modifies fat, fat.buffer, files
    ensures fat.Valid() && |links| <= |ops|
    ensures ok ==> AllInStep(fat.v, files, ops) && |links| == |ops|
    ensures fat.failures == old(fat.failures) ==> (ok <==> AllReach(fat, files, ops))
    ensures fat.reliable ==> fat.failures == old(fat.failures)
    ensures forall i :: 0 <= i < |links| && ops[i].Ask? && fat.failures == old(fat.failures) ==>
              links[i] == fat.v.Link(ops[i].cluster)
  {
    hide AllInStep, Fat.Valid, Volume.Link, Position, Reaches;
    links := [];
    NoOps(fat, files);
    while |links| < |ops|
      invariant fat.Valid() && fat.buffer == old(fat.buffer) && |links| <= |ops|
      invariant fat.v.Valid() && AllInStep(fat.v, files, ops[..|links|]) && fat.failures >= old(fat.failures)
      invariant fat.reliable ==> fat.failures == old(fat.failures)
      invariant fat.failures == old(fat.failures) ==>
                  forall k :: 0 <= k < |links| ==> OpsOk([ops[k]], |files|) && Reaches(fat, files, ops[..k], ops[k])
      invariant forall i :: 0 <= i < |links| && ops[i].Ask? && fat.failures == old(fat.failures) ==>
                  links[i] == fat.v.Link(ops[i].cluster)
    {
      var i := |links|;
      assert ops[..i + 1] == ops[..i] + [ops[i]];
      assert [ops[i]][0] == ops[i];
      var link;
      ok, link := RunOne(fat, files, ops[..i], ops[i]);
      if !ok {
        return;
      }
      links := links + [link];
    }
    assert ops[..|ops|] == ops;
    ok := true;
  }

  lemma NoOps(fat: Fat, files: seq<File>)
    requires fat.Valid()
    requires forall f :: 0 <= f < |files| ==>
               files[f].sector == 0 && files[f].cluster == files[f].startCluster < 0x1000_0000
    ensures fat.v.Valid() && AllInStep(fat.v, files, [])
  {
    ZeroCluster(fat.v);
  }
}
