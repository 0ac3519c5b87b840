/** The ring of device/ioqueue.c with its 64-byte array. */
module Ring {
  import opened IoQueue

  class Buffer {
    const buf: array<Byte>
    var head: nat
    var tail: nat

    ghost predicate Valid()
      reads this, buf
    {
      buf.Length == BUFSIZE && head < BUFSIZE && tail < BUFSIZE
    }

    ghost function Bytes(): seq<Byte>
      requires Valid()
      reads this, buf
    {
      Contents(buf[..], head, tail)
    }

    constructor ()
      ensures Valid() && fresh(buf) && Bytes() == []
    {
      buf := new Byte[BUFSIZE](i => 0);
      head, tail := 0, 0;
    }

    predicate IsFull()
      requires Valid()
      reads this, buf
      ensures IsFull() <==> |Bytes()| == BUFSIZE - 1
    {
      Next1(head) == tail
    }

    predicate IsEmpty()
      requires Valid()
      reads this, buf
      ensures IsEmpty() <==> Bytes() == []
    {
      head == tail
    }

    /** Lines 104-105. */
    method Store(b: Byte)
      requires Valid() && !IsFull()
      modifies this, buf
      ensures Valid() && Bytes() == old(Bytes()) + [b]
    {
      StoredBehind(buf[..], head, tail, b);
      ghost var stored := buf[..][head := b];
      buf[head] := b;
      assert buf[..] == stored;
      head := (head + 1) % BUFSIZE;
    }

    /** Lines 74-75. */
    method Fetch() returns (b: Byte)
      requires Valid() && !IsEmpty()
      modifies `tail
      ensures Valid() && old(Bytes()) == [b] + Bytes()
    {
      b := buf[tail];
      tail := (tail + 1) % BUFSIZE;
    }
  }
}
