/** The partition behind fs/fs.c: bitmaps, inodes and sectors, and the directory tree they stand for. */
module FsState {
  import opened Directory
  import opened DirHeads
  import opened DirEntries
  import opened FileGrowth
  import opened Tree

  const MAX_FILES := 4096

  /** The block bitmap and sectors, the inode bitmap, and the inodes in use as they are in memory. */
  datatype Fs = Fs(v: Volume, ibits: seq<bool>, nodes: map<nat, Dir>)

  // ---------------------------------------------------------------- blocks and their inodes

  ghost predicate HasBlock(nodes: map<nat, Dir>, disk: map<Blk, Sector>, n: nat, b: Blk) {
    n in nodes && b in Blocks(nodes[n], disk)
  }

  ghost predicate Taken(nodes: map<nat, Dir>, disk: map<Blk, Sector>, b: Blk) {
    exists n :: HasBlock(nodes, disk, n, b)
  }

  /** A block's bit is set iff exactly one inode refers to it. */
  ghost predicate Store(nodes: map<nat, Dir>, v: Volume) {
    && (forall n {:trigger Shaped(nodes[n], v.disk)} :: n in nodes ==> Shaped(nodes[n], v.disk))
    && (forall n, b :: HasBlock(nodes, v.disk, n, b) ==> v.Used(b))
    && (forall m, n, b :: HasBlock(nodes, v.disk, m, b) && HasBlock(nodes, v.disk, n, b) ==> m == n)
    && (forall b {:trigger Taken(nodes, v.disk, b)} :: v.Used(b) ==> Taken(nodes, v.disk, b))
  }

  ghost predicate Kept(d: Dir, v: Volume, v': Volume) {
    forall b :: b in Blocks(d, v.disk) && b in v.disk ==> b in v'.disk && v'.disk[b] == v.disk[b]
  }

  ghost function BlocksOf(nodes: map<nat, Dir>, disk: map<Blk, Sector>, p: nat): set<Blk> {
    if p in nodes then Blocks(nodes[p], disk) else {}
  }

  /** Inode p, perhaps new, now has the blocks of d'; blocks it gained were free, blocks it lost are
      free, and sectors that are neither its old nor its new ones are untouched. */
  ghost predicate Rehoused(nodes: map<nat, Dir>, v: Volume, p: nat, d': Dir, v': Volume) {
    var before, after := BlocksOf(nodes, v.disk, p), Blocks(d', v'.disk);
    && Shaped(d', v'.disk) && v'.base == v.base && |v'.bits| == |v.bits|
    && (forall x :: v'.Used(x) <==> (v.Used(x) && x !in before) || x in after)
    && (forall x :: x in after && x !in before ==> !v.Used(x))
    && (forall x :: x in v.disk && x !in before && x !in after ==> x in v'.disk && v'.disk[x] == v.disk[x])
  }

  lemma BlocksFrame(d: Dir, v: Volume, v': Volume)
    requires Shaped(d, v.disk) && Kept(d, v, v')
    ensures Shaped(d, v'.disk) && View(d, v'.disk) == View(d, v.disk) && Blocks(d, v'.disk) == Blocks(d, v.disk)
  {
    if d.table != 0 {
      assert d.table in Blocks(d, v.disk);
    }
    assert Index(d, v'.disk) == Index(d, v.disk);
  }

  lemma OthersKept(nodes: map<nat, Dir>, v: Volume, p: nat, d': Dir, v': Volume, n: nat)
    requires Store(nodes, v) && Rehoused(nodes, v, p, d', v') && n in nodes && n != p
    ensures Kept(nodes[n], v, v') && Blocks(nodes[n], v'.disk) == Blocks(nodes[n], v.disk)
    ensures Shaped(nodes[n], v'.disk)
    ensures forall b :: b in Blocks(nodes[n], v.disk) ==> v'.Used(b) && b !in Blocks(d', v'.disk)
  {
    forall b | b in Blocks(nodes[n], v.disk) ensures b !in BlocksOf(nodes, v.disk, p) && v.Used(b) {
      assert HasBlock(nodes, v.disk, n, b);
      if b in BlocksOf(nodes, v.disk, p) {
        assert HasBlock(nodes, v.disk, p, b);
      }
    }
    BlocksFrame(nodes[n], v, v');
  }

  lemma StoreRehoused(nodes: map<nat, Dir>, v: Volume, p: nat, d': Dir, v': Volume)
    requires Store(nodes, v) && Rehoused(nodes, v, p, d', v')
    ensures Store(nodes[p := d'], v')
  {
    var nodes' := nodes[p := d'];
    forall n | n in nodes && n != p ensures Shaped(nodes[n], v'.disk) {
      OthersKept(nodes, v, p, d', v', n);
    }
    forall n, b | HasBlock(nodes', v'.disk, n, b)
      ensures v'.Used(b) && (n != p ==> HasBlock(nodes, v.disk, n, b) && b !in Blocks(d', v'.disk))
    {
      if n != p {
        OthersKept(nodes, v, p, d', v', n);
      }
    }
    forall b | v'.Used(b) ensures Taken(nodes', v'.disk, b) {
      if b in Blocks(d', v'.disk) {
        assert HasBlock(nodes', v'.disk, p, b);
      } else {
        assert Taken(nodes, v.disk, b);
        var n :| HasBlock(nodes, v.disk, n, b);
        OthersKept(nodes, v, p, d', v', n);
        assert HasBlock(nodes', v'.disk, n, b);
      }
    }
  }

  /** Inode n is gone and its blocks are free. */
  lemma StoreDropped(nodes: map<nat, Dir>, v: Volume, n: nat, v': Volume)
    requires Store(nodes, v) && n in nodes && Gave(v, v', Blocks(nodes[n], v.disk))
    ensures Store(nodes - {n}, v')
  {
    var nodes' := nodes - {n};
    assert forall m, b :: HasBlock(nodes', v'.disk, m, b) <==> HasBlock(nodes, v.disk, m, b) && m != n;
    forall b | v'.Used(b) ensures Taken(nodes', v'.disk, b) {
      assert v.Used(b) && b !in Blocks(nodes[n], v.disk);
      assert Taken(nodes, v.disk, b);
      var m :| HasBlock(nodes, v.disk, m, b);
      assert HasBlock(nodes', v'.disk, m, b);
    }
    forall m, b | HasBlock(nodes', v'.disk, m, b) ensures v'.Used(b) {
      assert HasBlock(nodes, v.disk, m, b);
      assert b in Blocks(nodes[n], v.disk) ==> HasBlock(nodes, v.disk, n, b);
    }
  }

  // ---------------------------------------------------------------- inodes and the tree

  ghost predicate NodeRep(d: Dir, v: Volume, n: nat, t: Tree) {
    if n in t.dirs then DirRep(d, v, n, t.dirs[n]) else FileInv(d, v)
  }

  ghost predicate NodesRep(nodes: map<nat, Dir>, v: Volume, t: Tree) {
    forall n {:trigger NodeRep(nodes[n], v, n, t)} :: n in nodes ==> NodeRep(nodes[n], v, n, t)
  }

  /** The inode bit is set iff the inode is in use. */
  ghost predicate BitsRep(ibits: seq<bool>, nodes: map<nat, Dir>) {
    && |ibits| == MAX_FILES
    && (forall n :: n in nodes ==> n < MAX_FILES)
    && (forall n :: 0 <= n < MAX_FILES ==> (ibits[n] <==> n in nodes))
  }

  ghost predicate Rep(fs: Fs, t: Tree) {
    && TreeInv(t)
    && fs.nodes.Keys == t.dirs.Keys + t.files
    && BitsRep(fs.ibits, fs.nodes)
    && Store(fs.nodes, fs.v) && NodesRep(fs.nodes, fs.v, t)
    && fs.v.base > 0 && RootFirst(fs.nodes, fs.v)
  }

  /** The first allocatable sector is the root's. */
  ghost predicate RootFirst(nodes: map<nat, Dir>, v: Volume) {
    0 in nodes && |nodes[0].direct| == DIRECT && nodes[0].direct[0] == v.base
  }

  lemma LiveFrame(d: Dir, v: Volume, v': Volume, b: Blk)
    requires Kept(d, v, v') && b in Blocks(d, v.disk) && b in v.disk
    ensures LiveOf(v'.disk, b) == LiveOf(v.disk, b) && SlotsOf(v', b) == SlotsOf(v, b)
  {
  }

  lemma ValidFrame(d: Dir, v: Volume, v': Volume)
    requires Valid(d, v) && Kept(d, v, v') && v'.base == v.base
    requires forall b :: b in Blocks(d, v.disk) ==> v'.Used(b)
    ensures Valid(d, v') && Live(d, v') == Live(d, v) && View(d, v'.disk) == View(d, v.disk)
    ensures forall i :: 0 <= i < MAX_BLOCKS ==> LiveOf(v'.disk, View(d, v.disk)[i]) == LiveOf(v.disk, View(d, v.disk)[i])
  {
    BlocksFrame(d, v, v');
    var blocks := View(d, v.disk);
    forall b | b in blocks && b != 0 ensures SectorOk(v', b) && LiveOf(v'.disk, b) == LiveOf(v.disk, b) {
      assert SectorOk(v, b) && b in Blocks(d, v.disk);
      LiveFrame(d, v, v', b);
    }
    assert Index(d, v'.disk) == Index(d, v.disk) by {
      if d.table != 0 {
        assert d.table in Blocks(d, v.disk);
      }
    }
    LiveAllFrame(v.disk, v'.disk, blocks);
    assert d.table != 0 ==> d.table in Blocks(d, v.disk);
    forall i | 0 <= i < MAX_BLOCKS ensures LiveOf(v'.disk, blocks[i]) == LiveOf(v.disk, blocks[i]) {
      assert blocks[i] in blocks;
    }
  }

  lemma DirFrame(d: Dir, v: Volume, v': Volume, n: nat, f: Folder)
    requires DirRep(d, v, n, f) && Kept(d, v, v') && v'.base == v.base
    requires forall b :: b in Blocks(d, v.disk) ==> v'.Used(b)
    ensures DirRep(d, v', n, f)
  {
    ValidFrame(d, v, v');
    FirstIsView(d, v);
    ViewMember(d, v.disk, 0);
    LiveFrame(d, v, v', d.direct[0]);
  }

  lemma FileFrame(d: Dir, v: Volume, v': Volume)
    requires FileInv(d, v) && Kept(d, v, v') && v'.base == v.base
    requires forall b :: b in Blocks(d, v.disk) ==> v'.Used(b)
    ensures FileInv(d, v')
  {
    BlocksFrame(d, v, v');
  }

  lemma NodeFrame(d: Dir, v: Volume, v': Volume, n: nat, t: Tree)
    requires NodeRep(d, v, n, t) && Kept(d, v, v') && v'.base == v.base
    requires forall b :: b in Blocks(d, v.disk) ==> v'.Used(b)
    ensures NodeRep(d, v', n, t)
  {
    if n in t.dirs {
      DirFrame(d, v, v', n, t.dirs[n]);
    } else {
      FileFrame(d, v, v');
    }
  }

  /** The trees agree about inode n. */
  ghost predicate SameNode(t: Tree, t': Tree, n: nat) {
    (n in t.dirs <==> n in t'.dirs) && (n in t.dirs ==> t'.dirs[n] == t.dirs[n])
  }

  /** One inode changed or was added; all others are what they were. */
  lemma RehousedRep(nodes: map<nat, Dir>, v: Volume, t: Tree, p: nat, d': Dir, v': Volume, t': Tree)
    requires Store(nodes, v) && NodesRep(nodes, v, t) && Rehoused(nodes, v, p, d', v')
    requires NodeRep(d', v', p, t') && forall n :: n in nodes && n != p ==> SameNode(t, t', n)
    ensures Store(nodes[p := d'], v') && NodesRep(nodes[p := d'], v', t')
  {
    StoreRehoused(nodes, v, p, d', v');
    var nodes' := nodes[p := d'];
    forall n | n in nodes' ensures NodeRep(nodes'[n], v', n, t') {
      if n != p {
        OthersKept(nodes, v, p, d', v', n);
        assert SameNode(t, t', n);
        NodeFrame(nodes[n], v, v', n, t);
      }
    }
  }

  lemma DroppedRep(nodes: map<nat, Dir>, v: Volume, t: Tree, n: nat, v': Volume, t': Tree)
    requires Store(nodes, v) && NodesRep(nodes, v, t) && n in nodes && Gave(v, v', Blocks(nodes[n], v.disk))
    requires forall m :: m in nodes && m != n ==> SameNode(t, t', m)
    ensures Store(nodes - {n}, v') && NodesRep(nodes - {n}, v', t')
  {
    StoreDropped(nodes, v, n, v');
    forall m | m in nodes && m != n ensures NodeRep(nodes[m], v', m, t') {
      assert SameNode(t, t', m);
      forall b | b in Blocks(nodes[m], v.disk) ensures v'.Used(b) {
        assert HasBlock(nodes, v.disk, m, b);
        if b in Blocks(nodes[n], v.disk) {
          assert HasBlock(nodes, v.disk, n, b);
        }
      }
      NodeFrame(nodes[m], v, v', m, t);
    }
  }

  /** No block of an inode other than the root is the first one. */
  lemma NotRootBlock(nodes: map<nat, Dir>, v: Volume, t: Tree, n: nat)
    requires Store(nodes, v) && NodesRep(nodes, v, t) && RootFirst(nodes, v) && v.base > 0
    requires 0 in t.dirs && n in nodes && n != 0
    ensures v.Used(v.base) && Owned(nodes[n], v)
  {
    ViewMember(nodes[0], v.disk, 0);
    assert HasBlock(nodes, v.disk, 0, v.base);
    assert NodeRep(nodes[n], v, n, t);
    forall b | b in Blocks(nodes[n], v.disk) ensures v.Used(b) && b != v.base {
      assert HasBlock(nodes, v.disk, n, b);
    }
  }
}
