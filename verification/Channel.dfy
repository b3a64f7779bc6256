/**
 The linked queue of channel.c: the parts of ch_write and ch_read that run under the mutex.
 */
module Channel {
  import opened Bytes

  class Message<T> {
    const payload: Option<T>   // None is the NULL payload of ch_finish
    const size: nat
    var next: Message?<T>

    constructor (payload: Option<T>, size: nat)
      ensures this.payload == payload && this.size == size && next == null
    {
      this.payload := payload;
      this.size := size;
      next := null;
    }
  }

  datatype Item<T> = Item(payload: Option<T>, size: nat)

  datatype ReadResult<T> = Ok(payload: T, size: nat) | End | Misread

  class Queue<T> {
    var head: Message?<T>
    var tail: Message?<T>
    ghost var spine: seq<Message<T>>

    ghost predicate Valid()
      reads this, spine
    {
      && (forall i, j :: 0 <= i < j < |spine| ==> spine[i] != spine[j])
      && (forall i :: 0 <= i < |spine| - 1 ==> spine[i].next == spine[i + 1])
      && (spine != [] ==> spine[|spine| - 1].next == null)
      && head == (if spine == [] then null else spine[0])
      && tail == (if spine == [] then null else spine[|spine| - 1])
    }

    ghost function Contents(): seq<Item<T>>
      reads this, spine
    {
      seq(|spine|, i requires 0 <= i < |spine| reads this, spine => Item(spine[i].payload, spine[i].size))
    }

    constructor ()
      ensures Valid() && Contents() == [] && spine == []
    {
      head, tail, spine := null, null, [];
    }

    /** ch_write: append at the tail. */
    method Write(payload: Option<T>, size: nat)
      requires Valid()
      modifies this, spine
      ensures Valid() && fresh(set m | m in spine && m !in old(spine))
      ensures Contents() == old(Contents()) + [Item(payload, size)]
    {
      var msg := new Message(payload, size);
      if tail != null {
        assert tail == spine[|spine| - 1];
        tail.next := msg;
        tail := msg;
      } else {
        head := msg;
        tail := msg;
      }
      spine := spine + [msg];
    }

    /** ch_read past its semaphore: take the head; a reader that expects a size, 0 being any, gets no other. */
    method Read(expected: nat) returns (r: ReadResult<T>)
      requires Valid() && Contents() != []
      modifies this
      ensures Valid() && (forall m :: m in spine ==> m in old(spine))
      ensures Contents() == old(Contents())[1..]
      ensures var first := old(Contents())[0];
              && (r == End <==> first.payload == None)
              && (r == Misread <==> first.payload != None && expected != 0 && expected != first.size)
              && (r.Ok? ==> first.payload == Some(r.payload) && first.size == r.size)
    {
      var msg := head;
      assert |spine| > 1 ==> spine[0].next == spine[0 + 1];
      head := msg.next;
      if head == null {
        tail := null;
      }
      spine := spine[1..];
      assert forall i :: 0 <= i < |spine| ==> spine[i] == old(spine)[i + 1];
      r := if msg.payload.None? then End
           else if expected != 0 && expected != msg.size then Misread
           else Ok(msg.payload.value, msg.size);
    }
  }
}
