/** search_dir_entry, dir_read and the emptiness test (fs/dir.c). */
module DirRead {
  import opened Outcomes
  import opened Directory
  import Tree

  // ---------------------------------------------------------------- search_dir_entry

  /** The bytes of i_no, which follows the 16 bytes of filename, low byte first, up to the first zero byte. */
  function Overrun(ino: nat): string {
    if ino % 256 == 0 then "" else [(ino % 256) as char] + Overrun(ino / 256)
  }

  /** What strcmp reads at filename: a name of 16 characters has no terminating 0 there, so the bytes of
      i_no belong to it.  Cleared slots are all zero bytes, so their name is the empty string. */
  function NameOf(e: Slot): string {
    if e.Empty? then "" else if |e.name| < Tree.NAME_ROOM then e.name else e.name + Overrun(e.ino)
  }

  /** An entry is found again under the name it was made with iff that name is shorter than 16
      characters, or the low byte of its inode number is 0. */
  lemma FoundUnderItsNameIff(e: Slot)
    requires e.Entry?
    ensures NameOf(e) == e.name <==> |e.name| < Tree.NAME_ROOM || e.ino % 256 == 0
  {
    assert |NameOf(e)| == |e.name| + if |e.name| < Tree.NAME_ROOM then 0 else |Overrun(e.ino)|;
  }

  function FirstMatch(es: seq<Slot>, name: string): (k: nat)
    ensures k <= |es|
    ensures k < |es| ==> NameOf(es[k]) == name
    ensures forall j :: 0 <= j < k ==> NameOf(es[j]) != name
  {
    if es == [] || NameOf(es[0]) == name then 0 else 1 + FirstMatch(es[1..], name)
  }

  /** The entry search_dir_entry copies out; f_type is not looked at. */
  function Search(v: Volume, blocks: seq<Blk>, name: string): Option<Slot> {
    if blocks == [] then None
    else
      var es := SlotsOf(v, blocks[0]);
      var k := FirstMatch(es, name);
      if k < |es| then Some(es[k]) else Search(v, blocks[1..], name)
  }

  lemma NoMatchInLive(es: seq<Slot>, name: string)
    requires FirstMatch(es, name) == |es|
    ensures forall e :: e in LiveSlots(es) ==> NameOf(e) != name
  {
    forall e | e in LiveSlots(es) ensures NameOf(e) != name {
      LiveSlotsMember(es, e);
      var k :| 0 <= k < |es| && es[k] == e;
    }
  }

  lemma {:induction false} SearchAmong(v: Volume, blocks: seq<Blk>, name: string)
    requires name != ""
    ensures match Search(v, blocks, name)
            case Some(e) => e in LiveAll(v.disk, blocks) && NameOf(e) == name
            case None => forall e :: e in LiveAll(v.disk, blocks) ==> NameOf(e) != name
  {
    if blocks != [] {
      var es := SlotsOf(v, blocks[0]);
      var k := FirstMatch(es, name);
      LiveOfIsSlots(v, blocks[0]);
      SearchAmong(v, blocks[1..], name);
      if k < |es| {
        LiveSlotsMember(es, es[k]);
      } else {
        NoMatchInLive(es, name);
      }
    }
  }

  /** A non-empty name is found iff a live entry carries it, and what is found is a live entry. */
  lemma SearchFindsLive(d: Dir, v: Volume, name: string)
    requires name != ""
    ensures match Search(v, View(d, v.disk), name)
            case Some(e) => e in Live(d, v) && NameOf(e) == name
            case None => forall e :: e in Live(d, v) ==> NameOf(e) != name
  {
    SearchAmong(v, View(d, v.disk), name);
  }

  /** A live entry whose name has 16 characters is found by that name iff its inode number is a multiple
      of 256; otherwise the name seems free and a second entry for it can be made. */
  lemma SixteenFoundIff(d: Dir, v: Volume, e: Slot)
    requires e in Live(d, v) && e.Entry? && |e.name| == Tree.NAME_ROOM
    requires forall x :: x in Live(d, v) && x != e ==> NameOf(x) != e.name
    ensures Search(v, View(d, v.disk), e.name) == if e.ino % 256 == 0 then Some(e) else None
  {
    FoundUnderItsNameIff(e);
    SearchFindsLive(d, v, e.name);
  }

  /** The empty name is found wherever a sector has a free slot: a component that path_parse leaves
      empty resolves to a slot that holds nothing. */
  lemma EmptyNameFindsFreeSlot(v: Volume, blocks: seq<Blk>, i: nat)
    requires i < |blocks| && Empty in SlotsOf(v, blocks[i])
    requires forall j :: 0 <= j < |blocks| ==> forall e :: e in LiveOf(v.disk, blocks[j]) ==> NameOf(e) != ""
    ensures Search(v, blocks, "") == Some(Empty)
  {
    var es := SlotsOf(v, blocks[0]);
    var k := FirstMatch(es, "");
    if k < |es| {
      LiveOfIsSlots(v, blocks[0]);
      LiveSlotsMember(es, es[k]);
    } else {
      assert i > 0;
      forall j | 0 <= j < |blocks[1..]| ensures forall e :: e in LiveOf(v.disk, blocks[1..][j]) ==> NameOf(e) != "" {
        assert blocks[1..][j] == blocks[j + 1];
      }
      EmptyNameFindsFreeSlot(v, blocks[1..], i - 1);
    }
  }

  // ---------------------------------------------------------------- dir_read

  datatype Progress = Walked(pos: nat) | Hit(entry: Slot) | Stopped

  /** The inner loop: `at` is cur_dir_entry_pos, `pos` is dir_pos. */
  function WalkSlots(es: seq<Slot>, at: nat, pos: nat): Progress {
    if es == [] then Walked(at)
    else if es[0] == Empty then WalkSlots(es[1..], at, pos)
    else if at < pos then WalkSlots(es[1..], at + ENTRY_SIZE, pos)
    else if at == pos then Hit(es[0])
    else Stopped
  }

  function WalkBlocks(v: Volume, blocks: seq<Blk>, at: nat, pos: nat): Progress {
    if blocks == [] then Walked(at)
    else
      var w := WalkSlots(SlotsOf(v, blocks[0]), at, pos);
      if w.Walked? then WalkBlocks(v, blocks[1..], w.pos, pos) else w
  }

  /** What one dir_read returns, with the directory's position after it. */
  function Read(d: Dir, v: Volume, pos: nat): Outcome<(Option<Slot>, nat)> {
    if pos >= d.size then Next((None, pos))
    else
      match WalkBlocks(v, if d.table != 0 then View(d, v.disk) else d.direct, 0, pos)
      case Walked(_) => Next((None, pos))
      case Hit(e) => Next((Some(e), pos + ENTRY_SIZE))
      case Stopped => Halted
  }

  /** dir_pos after k entries. */
  function Offset(k: nat): nat {
    24 * k
  }

  lemma {:induction false} WalkSlotsIndexes(es: seq<Slot>, a: nat, p: nat)
    requires a <= p
    ensures WalkSlots(es, Offset(a), Offset(p))
            == if p - a < |LiveSlots(es)| then Hit(LiveSlots(es)[p - a]) else Walked(Offset(a + |LiveSlots(es)|))
  {
    if es != [] {
      if es[0] == Empty {
        WalkSlotsIndexes(es[1..], a, p);
      } else if a < p {
        WalkSlotsIndexes(es[1..], a + 1, p);
      }
    }
  }

  lemma {:induction false} WalkBlocksHit(v: Volume, blocks: seq<Blk>, a: nat, p: nat)
    requires a <= p < a + |LiveAll(v.disk, blocks)|
    ensures WalkBlocks(v, blocks, Offset(a), Offset(p)) == Hit(LiveAll(v.disk, blocks)[p - a])
  {
    hide LiveSlots, WalkSlots, Offset, LiveOf, SlotsOf;
    var live, rest := LiveOf(v.disk, blocks[0]), LiveAll(v.disk, blocks[1..]);
    assert LiveAll(v.disk, blocks) == live + rest;
    LiveOfIsSlots(v, blocks[0]);
    WalkSlotsIndexes(SlotsOf(v, blocks[0]), a, p);
    if |live| <= p - a {
      WalkBlocksHit(v, blocks[1..], a + |live|, p);
      assert (live + rest)[p - a] == rest[p - (a + |live|)];
    } else {
      assert (live + rest)[p - a] == live[p - a];
    }
  }

  /** The k-th dir_read returns the k-th live entry in block order, then NULL for ever; its position
      assertion never fires. */
  lemma ReadIndexes(d: Dir, v: Volume, k: nat)
    requires Valid(d, v)
    ensures Read(d, v, Offset(k))
            == Next(if k < |Live(d, v)| then (Some(Live(d, v)[k]), Offset(k + 1)) else (None, Offset(k)))
  {
    if k < |Live(d, v)| {
      var blocks := if d.table != 0 then View(d, v.disk) else d.direct;
      NoTableNoIndex(d, v);
      WalkBlocksHit(v, blocks, 0, k);
    }
  }

  lemma NoTableNoIndex(d: Dir, v: Volume)
    ensures LiveAll(v.disk, if d.table != 0 then View(d, v.disk) else d.direct) == Live(d, v)
  {
    if d.table == 0 {
      LiveAllConcat(v.disk, d.direct, Index(d, v.disk));
      LiveAllZeros(v.disk, Index(d, v.disk));
    }
  }

  /** n calls of dir_read on an unchanged directory. */
  function Reads(d: Dir, v: Volume, pos: nat, n: nat): Outcome<seq<Option<Slot>>>
    decreases n
  {
    if n == 0 then Next([])
    else
      var (e, pos') :- Read(d, v, pos);
      var rest :- Reads(d, v, pos', n - 1);
      Next([e] + rest)
  }

  function Listing(s: seq<Slot>, extra: nat): seq<Option<Slot>> {
    seq(|s| + extra, i requires i >= 0 => if i < |s| then Some(s[i]) else None)
  }

  lemma {:induction false} ReadsFrom(d: Dir, v: Volume, k: nat, extra: nat)
    requires Valid(d, v) && k <= |Live(d, v)|
    ensures Reads(d, v, Offset(k), |Live(d, v)| - k + extra) == Next(Listing(Live(d, v)[k..], extra))
    decreases |Live(d, v)| - k + extra
  {
    var l := Live(d, v);
    ReadIndexes(d, v, k);
    if k < |l| {
      ReadsFrom(d, v, k + 1, extra);
      assert Listing(l[k..], extra) == [Some(l[k])] + Listing(l[k + 1..], extra);
    } else if extra > 0 {
      ReadsFrom(d, v, k, extra - 1);
      assert Listing(l[k..], extra) == [None] + Listing(l[k..], extra - 1);
    } else {
      assert Listing(l[k..], extra) == [];
    }
  }

  /** Reading a directory from the start lists every live entry exactly once, in block order across
      gaps and both block levels, and then NULL. */
  lemma ReadsListDirectory(d: Dir, v: Volume, extra: nat)
    requires Valid(d, v)
    ensures Reads(d, v, 0, |Live(d, v)| + extra) == Next(Listing(Live(d, v), extra))
  {
    ReadsFrom(d, v, 0, extra);
    assert Live(d, v)[0..] == Live(d, v);
  }

  // ---------------------------------------------------------------- empty directories

  /** A directory of dots alone has one sector, so the assertion of dir_remove holds. */
  lemma OnlyDotsOneSector(d: Dir, v: Volume)
    requires Valid(d, v) && DotsFirst(d, v)
    requires forall e :: e in Live(d, v) ==> IsDot(e)
    ensures d.table == 0 && forall i :: 1 <= i < DIRECT ==> d.direct[i] == 0
  {
    forall i | 1 <= i < MAX_BLOCKS ensures View(d, v.disk)[i] == 0 {
      var b := View(d, v.disk)[i];
      if b != 0 {
        BlockOk(d, v, i);
        var e := LiveSlots(v.disk[b].es)[0];
        assert e in LiveOf(v.disk, b) && Plain(e);
        LiveAllSplit(v.disk, View(d, v.disk), i);
        assert false;
      }
    }
    if d.table != 0 {
      var x :| x in Index(d, v.disk) && x != 0;
      var j :| 0 <= j < |Index(d, v.disk)| && Index(d, v.disk)[j] == x;
      ViewMember(d, v.disk, j + DIRECT);
    }
    forall i | 1 <= i < DIRECT ensures d.direct[i] == 0 {
      ViewMember(d, v.disk, i);
    }
  }
}
