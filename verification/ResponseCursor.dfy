/** The exact cursor over a response body, however the body is cut (src/stems/sparse-response.ts). */
module ResponseCursor {
  import opened Common

  const MAX_INPUT_BYTES := 262144

  /** What one read of the body reader settles with; a BYOB reader that ends without a view counts as broken. */
  datatype BodyRead =
    | View(bytes: seq<Byte>)
    | LastView(bytes: seq<Byte>)
    | NoMore
    | Broken

  /** The bytes the remaining reads bring, up to the first that ends the body. */
  function Content(reader: seq<BodyRead>): seq<Byte> {
    if |reader| == 0 then []
    else
      match reader[0]
      case View(bytes) => bytes + Content(reader[1..])
      case LastView(bytes) => bytes
      case NoMore => []
      case Broken => []
  }

  /** No read fails, stays away or brings an empty view before the end. */
  predicate Sound(reader: seq<BodyRead>) {
    |reader| > 0 &&
    match reader[0]
    case View(bytes) => |bytes| > 0 && Sound(reader[1..])
    case LastView(bytes) => true
    case NoMore => true
    case Broken => false
  }

  datatype Body = Done | Available | Failed

  class Cursor {
    var reader: seq<BodyRead>
    var carry: seq<Byte>
    var carryOffset: nat
    var position: nat
    var eof: bool
    var scratchLive: bool

    predicate Valid()
      reads this
    {
      carryOffset <= |carry|
    }

    /** Everything that can still be read. */
    ghost function Rest(): seq<Byte>
      requires Valid()
      reads this
    {
      carry[carryOffset..] + (if eof then [] else Content(reader))
    }

    ghost predicate Clean()
      reads this
    {
      eof || Sound(reader)
    }

    constructor (reader: seq<BodyRead>)
      ensures Valid() && Rest() == Content(reader) && position == 0 && !scratchLive && Clean() == Sound(reader)
    {
      this.reader, carry, carryOffset, position, eof, scratchLive := reader, [], 0, 0, false, false;
    }

    /** Keeps a view in carry until it is used up, and takes the next one from the reader then. */
    method NextBody() returns (body: Body)
      requires Valid()
      modifies `reader, `carry, `carryOffset, `eof
      ensures Valid() && (old(Clean()) ==> Clean() && !body.Failed?)
      ensures body.Done? ==> Rest() == [] == old(Rest())
      ensures body.Available? ==> Rest() == old(Rest()) && carryOffset < |carry|
      decreases |reader|
    {
      if carryOffset < |carry| {
        return Available;
      }
      carry, carryOffset := [], 0;
      if eof {
        return Done;
      }
      if |reader| == 0 {
        return Failed;
      }
      var read := reader[0];
      reader := reader[1..];
      match read
      case Broken => return Failed;
      case NoMore =>
        eof := true;
        return Done;
      case LastView(bytes) =>
        eof := true;
        if |bytes| == 0 {
          return Done;
        }
        carry := bytes;
        return Available;
      case View(bytes) =>
        if |bytes| < 1 {
          return Failed;
        }
        carry := bytes;
        return Available;
    }

    method Take(count: nat) returns (piece: seq<Byte>)
      requires Valid() && carryOffset + count <= |carry|
      modifies `carry, `carryOffset, `position
      ensures Valid() && |piece| == count && piece + Rest() == old(Rest()) && position == old(position) + count
    {
      piece := carry[carryOffset..carryOffset + count];
      ghost var later := if eof then [] else Content(reader);
      assert carry[carryOffset..] == piece + carry[carryOffset + count..];
      assert carry[carryOffset..] + later == piece + (carry[carryOffset + count..] + later);
      carryOffset, position := carryOffset + count, position + count;
      if carryOffset == |carry| {
        carry, carryOffset := [], 0;
      }
    }

    /** The next length bytes of the body, across any number of views. */
    method ReadExact(length: nat) returns (bytes: Option<seq<Byte>>)
      requires Valid()
      modifies `reader, `carry, `carryOffset, `eof, `position
      ensures Valid() && (old(Clean()) ==> Clean())
      ensures bytes.Some? ==> length <= |old(Rest())| && bytes.value == old(Rest())[..length] && Rest() == old(Rest())[length..]
      ensures bytes.Some? ==> position == old(position) + length
      ensures bytes.None? && old(Clean()) ==> |old(Rest())| < length
    {
      var output: seq<Byte> := [];
      ghost var all := Rest();
      while |output| < length
        invariant Valid() && |output| <= length && (old(Clean()) ==> Clean())
        invariant output + Rest() == all && position == old(position) + |output|
        decreases length - |output|
      {
        var body := NextBody();
        if !body.Available? {
          return None;
        }
        var piece := Take(Min(|carry| - carryOffset, length - |output|));
        assert output + (piece + Rest()) == (output + piece) + Rest();
        output := output + piece;
      }
      return Some(output);
    }

    /** One borrowed input of at most a slot; the scratch has to be released before the next. */
    method ReadChunk(length: int) returns (bytes: Option<seq<Byte>>)
      requires Valid()
      modifies this
      ensures Valid() && (old(Clean()) ==> Clean())
      ensures bytes.Some? ==> 1 <= length <= MAX_INPUT_BYTES && !old(scratchLive) && scratchLive
      ensures bytes.Some? ==> length <= |old(Rest())| && bytes.value == old(Rest())[..length] && Rest() == old(Rest())[length..]
      ensures bytes.Some? ==> position == old(position) + length
      ensures bytes.None? && old(Clean()) ==> !(1 <= length <= MAX_INPUT_BYTES) || old(scratchLive) || |old(Rest())| < length
    {
      if length < 1 || length > MAX_INPUT_BYTES || scratchLive {
        return None;
      }
      bytes := ReadExact(length);
      if bytes.Some? {
        scratchLive := true;
      }
    }

    method Release()
      requires Valid()
      modifies `scratchLive
      ensures Valid() && !scratchLive
    {
      scratchLive := false;
    }

    /** The payload is over exactly when the body is. */
    method AssertEof() returns (ok: bool)
      requires Valid()
      modifies `reader, `carry, `carryOffset, `eof
      ensures Valid() && (ok ==> old(Rest()) == []) && (old(Clean()) ==> ok == (old(Rest()) == []))
    {
      var body := NextBody();
      ok := body.Done?;
    }
  }
}
