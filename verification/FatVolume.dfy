/** A mounted FAT32 volume: copies of the allocation table, data clusters, and a root directory of
    one cluster; every directory slot has its chain of clusters. */
module FatVolume {
  import opened Arithmetic
  import opened Bytes
  import opened FatTable

  const SECTOR := 512

  datatype Status = Ok | InvalidArgument | NotFound | NoMemory | NotSupported

  /** What the table, the clusters and the chains of all directory slots are. */
  datatype Image = Image(table: Table, data: seq<seq<Byte>>, chains: seq<seq<nat>>)

  datatype Shape = Shape(clusterBytes: nat, root: nat)

  // ----- a sound image

  ghost predicate Apart(m: Image, a: nat, b: nat, c: nat) {
    a < |m.chains| && b < |m.chains| && a != b && c in m.chains[a] ==> c !in m.chains[b]
  }

  ghost predicate SlotOk(sh: Shape, m: Image, s: nat) {
    s < |m.chains| ==> Chained(m.table, m.chains[s]) && sh.root !in m.chains[s]
  }

  /** Every chain is acyclic, in range and ends in an end mark, and no cluster is in two. */
  ghost predicate Sound(sh: Shape, m: Image) {
    && sh.clusterBytes > 0 && sh.clusterBytes % SECTOR == 0
    && InRange(m.table) && |m.data| == |m.table|
    && Cluster(m.table, sh.root) && IsEoc(m.table[sh.root])
    && |m.table| >= 2 && m.table[0] != 0 && m.table[1] != 0
    && (forall c :: 0 <= c < |m.data| ==> |m.data[c]| == sh.clusterBytes)
    && (forall s: nat :: SlotOk(sh, m, s))
    && (forall a: nat, b: nat, c: nat :: Apart(m, a, b, c))
  }

  // ----- the bytes of a chain

  function ByteAt(cb: nat, data: seq<seq<Byte>>, chain: seq<nat>, i: nat): Byte {
    if cb > 0 && i / cb < |chain| && chain[i / cb] < |data| && i % cb < |data[chain[i / cb]]|
    then data[chain[i / cb]][i % cb] else 0
  }

  function Content(cb: nat, data: seq<seq<Byte>>, chain: seq<nat>, size: nat): (r: seq<Byte>)
    ensures |r| == size && forall i :: 0 <= i < size ==> r[i] == ByteAt(cb, data, chain, i)
  {
    seq(size, i requires 0 <= i < size => ByteAt(cb, data, chain, i))
  }

  /** The kth cluster's worth of a file are the bytes of the kth cluster of its chain, in order. */
  lemma ClustersInOrder(cb: nat, data: seq<seq<Byte>>, chain: seq<nat>, size: nat, k: nat)
    requires cb > 0 && k < |chain| && chain[k] < |data| && |data[chain[k]]| == cb && k * cb + cb <= size
    ensures Content(cb, data, chain, size)[k * cb..k * cb + cb] == data[chain[k]]
  {
    forall j | 0 <= j < cb ensures ByteAt(cb, data, chain, k * cb + j) == data[chain[k]][j] {
      DivUnique(k, j, cb);
    }
  }

  /** `part` is laid over the bytes of slot `s` from `offset`, and nothing else of the slot changes. */
  ghost predicate Shows(sh: Shape, m: Image, m': Image, s: nat, offset: nat, part: seq<Byte>) {
    && s < |m.chains| && s < |m'.chains|
    && forall i: nat {:trigger ByteAt(sh.clusterBytes, m'.data, m'.chains[s], i)} ::
         ByteAt(sh.clusterBytes, m'.data, m'.chains[s], i) ==
         if offset <= i < offset + |part| then part[i - offset] else ByteAt(sh.clusterBytes, m.data, m.chains[s], i)
  }

  /** The other slots keep their chains and the clusters on them. */
  ghost predicate OthersKept(m: Image, m': Image, s: nat) {
    && |m'.chains| == |m.chains| && |m'.data| == |m.data|
    && (forall a :: 0 <= a < |m.chains| && a != s ==> m'.chains[a] == m.chains[a])
    && (forall a, c :: 0 <= a < |m.chains| && a != s && c in m.chains[a] && 0 <= c < |m.data| ==>
        m'.data[c] == m.data[c])
  }

  // ----- growing a chain

  /** Slot `s` gets the free cluster `c`, zeroed, at its end. */
  ghost function Grown(sh: Shape, m: Image, s: nat, c: nat): Image
    requires s < |m.chains| && c < |m.table| && c < |m.data|
  {
    Image(Extended(m.table, m.chains[s], c), m.data[c := Zeros(sh.clusterBytes)], m.chains[s := m.chains[s] + [c]])
  }

  lemma FreeInNoChain(sh: Shape, m: Image, a: nat, c: nat)
    requires Sound(sh, m) && a < |m.chains| && c < |m.table| && m.table[c] == 0
    ensures c !in m.chains[a] && Cluster(m.table, c) && c != sh.root
  {
    assert SlotOk(sh, m, a);
    forall i: nat | i < |m.chains[a]| ensures m.chains[a][i] != c {
      assert Link(m.table, m.chains[a], i) && Link(m.table, m.chains[a], i + 1);
    }
  }

  lemma LastNotElsewhere(sh: Shape, m: Image, s: nat, a: nat)
    requires Sound(sh, m) && s < |m.chains| && a < |m.chains| && a != s && m.chains[s] != []
    ensures m.chains[s][|m.chains[s]| - 1] !in m.chains[a]
  {
    assert Apart(m, s, a, m.chains[s][|m.chains[s]| - 1]);
  }

  lemma GrownSound(sh: Shape, m: Image, s: nat, c: nat)
    requires Sound(sh, m) && s < |m.chains| && c < |m.table| && m.table[c] == 0
    ensures Sound(sh, Grown(sh, m, s, c))
  {
    var m' := Grown(sh, m, s, c);
    assert SlotOk(sh, m, s);
    FreeInNoChain(sh, m, s, c);
    Extend(m.table, m.chains[s], c);
    if m.chains[s] != [] { assert Link(m.table, m.chains[s], |m.chains[s]| - 1); }
    forall a: nat ensures SlotOk(sh, m', a) {
      assert SlotOk(sh, m, a);
      if a < |m.chains| && a != s {
        FreeInNoChain(sh, m, a, c);
        if m.chains[s] != [] { LastNotElsewhere(sh, m, s, a); }
        ChainFrame(m.table, m'.table, m.chains[a]);
      }
    }
    forall a: nat, b: nat, k: nat ensures Apart(m', a, b, k) {
      assert Apart(m, a, b, k);
      if a < |m.chains| { FreeInNoChain(sh, m, a, c); }
      if b < |m.chains| { FreeInNoChain(sh, m, b, c); }
    }
  }

  /** Growing changes no byte: the new cluster reads as the zeros that stood there. */
  lemma GrownShows(sh: Shape, m: Image, s: nat, c: nat)
    requires Sound(sh, m) && s < |m.chains| && c < |m.table| && m.table[c] == 0
    ensures Shows(sh, m, Grown(sh, m, s, c), s, 0, []) && OthersKept(m, Grown(sh, m, s, c), s)
  {
    var m' := Grown(sh, m, s, c);
    var cb := sh.clusterBytes;
    FreeInNoChain(sh, m, s, c);
    forall i: nat ensures ByteAt(cb, m'.data, m'.chains[s], i) == ByteAt(cb, m.data, m.chains[s], i) {
      assert i / cb < |m.chains[s]| ==> m'.chains[s][i / cb] == m.chains[s][i / cb];
    }
    forall a | 0 <= a < |m.chains| ensures c !in m.chains[a] { FreeInNoChain(sh, m, a, c); }
  }

  lemma ShowsNothingThen(sh: Shape, m: Image, k: Image, m': Image, s: nat, offset: nat, part: seq<Byte>)
    requires Shows(sh, m, k, s, 0, []) && Shows(sh, k, m', s, offset, part)
    ensures Shows(sh, m, m', s, offset, part)
  {
    var cb := sh.clusterBytes;
    forall i: nat ensures ByteAt(cb, m'.data, m'.chains[s], i) ==
      if offset <= i < offset + |part| then part[i - offset] else ByteAt(cb, m.data, m.chains[s], i)
    {
      assert ByteAt(cb, k.data, k.chains[s], i) == ByteAt(cb, m.data, m.chains[s], i);
    }
  }

  lemma ShowsThen(sh: Shape, m: Image, k: Image, m': Image, s: nat, offset: nat, a: seq<Byte>, b: seq<Byte>)
    requires Shows(sh, m, k, s, offset, a) && Shows(sh, k, m', s, offset + |a|, b)
    ensures Shows(sh, m, m', s, offset, a + b)
  {
    var cb := sh.clusterBytes;
    forall i: nat ensures ByteAt(cb, m'.data, m'.chains[s], i) ==
      if offset <= i < offset + |a + b| then (a + b)[i - offset] else ByteAt(cb, m.data, m.chains[s], i)
    {
      assert ByteAt(cb, k.data, k.chains[s], i) ==
        if offset <= i < offset + |a| then a[i - offset] else ByteAt(cb, m.data, m.chains[s], i);
    }
  }

  lemma OthersTrans(m: Image, k: Image, m': Image, s: nat)
    requires OthersKept(m, k, s) && OthersKept(k, m', s)
    ensures OthersKept(m, m', s)
  {}

  // ----- storing a piece of a cluster

  ghost function Stored(m: Image, c: nat, offset: nat, chunk: seq<Byte>): Image
    requires c < |m.data| && offset + |chunk| <= |m.data[c]|
  {
    m.(data := m.data[c := Overwrite(m.data[c], offset, chunk)])
  }

  lemma StoredSound(sh: Shape, m: Image, s: nat, k: nat, offset: nat, chunk: seq<Byte>)
    requires Sound(sh, m) && s < |m.chains| && k < |m.chains[s]| && offset + |chunk| <= sh.clusterBytes
    ensures m.chains[s][k] < |m.data|
    ensures Sound(sh, Stored(m, m.chains[s][k], offset, chunk))
    ensures OthersKept(m, Stored(m, m.chains[s][k], offset, chunk), s)
  {
    assert SlotOk(sh, m, s) && Link(m.table, m.chains[s], k);
    var c := m.chains[s][k];
    var m' := Stored(m, c, offset, chunk);
    forall a: nat ensures SlotOk(sh, m', a) { assert SlotOk(sh, m, a); }
    forall a: nat, b: nat, x: nat ensures Apart(m', a, b, x) { assert Apart(m, a, b, x); }
    forall a | 0 <= a < |m.chains| && a != s ensures c !in m.chains[a] { assert Apart(m, s, a, c); }
  }

  lemma StoredShows(sh: Shape, m: Image, s: nat, k: nat, offset: nat, chunk: seq<Byte>)
    requires Sound(sh, m) && s < |m.chains| && k < |m.chains[s]| && offset + |chunk| <= sh.clusterBytes
    requires m.chains[s][k] < |m.data|
    ensures Shows(sh, m, Stored(m, m.chains[s][k], offset, chunk), s, k * sh.clusterBytes + offset, chunk)
  {
    var cb := sh.clusterBytes;
    var chain := m.chains[s];
    var m' := Stored(m, chain[k], offset, chunk);
    var start := k * cb + offset;
    assert SlotOk(sh, m, s);
    forall i: nat ensures ByteAt(cb, m'.data, m'.chains[s], i) ==
      if start <= i < start + |chunk| then chunk[i - start] else ByteAt(cb, m.data, chain, i)
    {
      if i / cb < |chain| { assert Link(m.table, chain, i / cb); }
      StoredByte(cb, m.data, chain, k, offset, chunk, k * cb, i);
    }
  }

  lemma StoredByte(cb: nat, data: seq<seq<Byte>>, chain: seq<nat>, k: nat, offset: nat, chunk: seq<Byte>, base: nat,
          i: nat)
    requires cb > 0 && k < |chain| && chain[k] < |data| && |data[chain[k]]| == cb && offset + |chunk| <= cb &&
             base == k * cb
    requires i / cb < |chain| && i / cb != k ==> chain[i / cb] != chain[k]
    ensures ByteAt(cb, data[chain[k] := Overwrite(data[chain[k]], offset, chunk)], chain, i) ==
            if base + offset <= i < base + offset + |chunk| then chunk[i - (base + offset)]
              else ByteAt(cb, data, chain, i)
  {
    InCluster(cb, k, i);
    var q, r := i / cb, i % cb;
    assert r < cb;
  }

  /** Byte `i` is in cluster `k` exactly when it lies in the cluster's stretch. */
  lemma InCluster(cb: nat, k: nat, i: nat)
    requires cb > 0
    ensures i / cb == k <==> k * cb <= i < k * cb + cb
    ensures i / cb == k ==> i % cb == i - k * cb
  {
    assert i == i / cb * cb + i % cb;
    if i / cb < k { MulStep(i / cb, k, cb); }
    if i / cb > k { MulStep(k, i / cb, cb); }
  }
}
