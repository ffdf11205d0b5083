/**
 * The serialization stream the layer writes to and reads from (tesseract's
 * TFile, which is not part of this model), seen as a sequence of typed items.
 *
 * A write appends one item and fails, leaving the stream as it was, once the
 * medium holds `capacity` items. A read takes the item at the read offset and
 * fails, consuming nothing, when the stream is exhausted or that item is not
 * of the kind asked for (a truncated or corrupt stream). The ghost `calls`
 * log records every write and read attempted, so that a contract can say
 * which ones a caller made.
 */
module Stream {

  /** What one serialization call puts on the stream. */
  datatype Item =
    | NetworkHeader(name: string, ni: int, no: int)  // the base layer's state
    | Float32(value: real)                           // one float field

  datatype Call = WriteCall(item: Item) | ReadHeaderCall | ReadFloatCall

  class TFile {
    var items: seq<Item>
    var offset: nat
    const capacity: nat
    ghost var calls: seq<Call>

    ghost predicate Valid()
      reads this
    {
      offset <= |items| <= capacity
    }

    /** The item at the read offset is a base-layer header. */
    predicate NextIsHeader()
      reads this
    {
      offset < |items| && items[offset].NetworkHeader?
    }

    /** The item at the read offset is a float. */
    predicate NextIsFloat()
      reads this
    {
      offset < |items| && items[offset].Float32?
    }

    /** An empty stream opened for writing on a medium of the given size. */
    constructor OpenWrite(capacity: nat)
      ensures Valid()
      ensures items == [] && offset == 0 && this.capacity == capacity && calls == []
    {
      items, offset, this.capacity := [], 0, capacity;
      calls := [];
    }

    /** A stream opened for reading on the given data. */
    constructor OpenRead(data: seq<Item>)
      ensures Valid()
      ensures items == data && offset == 0 && capacity == |data| && calls == []
    {
      items, offset, capacity := data, 0, |data|;
      calls := [];
    }

    /** Moves the read offset back to the start, to read what was written. */
    method Rewind()
      requires Valid()
      modifies this
      ensures Valid()
      ensures items == old(items) && offset == 0 && calls == old(calls)
    {
      offset := 0;
    }

    method Write(item: Item) returns (ok: bool)
      requires Valid()
      modifies this
      ensures Valid()
      ensures ok == (|old(items)| < capacity)
      ensures items == if ok then old(items) + [item] else old(items)
      ensures offset == old(offset) && calls == old(calls) + [WriteCall(item)]
    {
      calls := calls + [WriteCall(item)];
      ok := |items| < capacity;
      if ok {
        items := items + [item];
      }
    }

    method ReadHeader() returns (ok: bool, name: string, ni: int, no: int)
      requires Valid()
      modifies this
      ensures Valid()
      ensures ok == old(NextIsHeader())
      ensures ok ==> old(items[offset]) == NetworkHeader(name, ni, no) && offset == old(offset) + 1
      ensures !ok ==> offset == old(offset)
      ensures items == old(items) && calls == old(calls) + [ReadHeaderCall]
    {
      calls := calls + [ReadHeaderCall];
      ok, name, ni, no := false, "", 0, 0;
      if offset < |items| && items[offset].NetworkHeader? {
        ok := true;
        name, ni, no := items[offset].name, items[offset].ni, items[offset].no;
        offset := offset + 1;
      }
    }

    method ReadFloat() returns (ok: bool, x: real)
      requires Valid()
      modifies this
      ensures Valid()
      ensures ok == old(NextIsFloat())
      ensures ok ==> old(items[offset]) == Float32(x) && offset == old(offset) + 1
      ensures !ok ==> offset == old(offset)
      ensures items == old(items) && calls == old(calls) + [ReadFloatCall]
    {
      calls := calls + [ReadFloatCall];
      ok, x := false, 0.0;
      if offset < |items| && items[offset].Float32? {
        ok := true;
        x := items[offset].value;
        offset := offset + 1;
      }
    }
  }
}
