/** Block2 transfers (section 2.2 of RFC 7959) as the CoAP engine does them: for resources that
    know nothing of blocks, and for those that generate their payload block by block. */
module CoapBlockwise {
  import opened Common
  import CoapFields
  import WellKnownCore

  datatype Block2 = Block2(num: nat, more: bool, size: nat)

  const CONTENT_2_05: nat := 69
  const BAD_REQUEST_4_00: nat := 128
  const BAD_OPTION_4_02: nat := 130

  datatype Status = NO_ERROR | NOT_IMPLEMENTED_5_01

  /** COAP_MAX_BLOCK_SIZE: the next lower power of two of the chunk size. */
  function MaxBlockSize(chunk: nat): (size: nat)
    ensures CoapFields.BlockSize(size) && 16 <= size <= 2048
    ensures chunk >= 16 ==> size <= chunk
    ensures size == 2048 || chunk < 2 * size
  {
    if chunk < 32 then 16 else if chunk < 64 then 32 else if chunk < 128 then 64 else if chunk < 256 then 128
    else if chunk < 512 then 256 else if chunk < 1024 then 512 else if chunk < 2048 then 1024 else 2048
  }

  /** A response that is being prepared; `chunk` is REST_MAX_CHUNK_SIZE. */
  class Response {
    const chunk: nat
    var code: nat
    var payload: string
    var block2: Option<Block2>

    /** `coap_init_message` */
    constructor (chunk: nat)
      ensures this.chunk == chunk && code == CONTENT_2_05 && payload == "" && block2 == None
    {
      this.chunk, code, payload, block2 := chunk, CONTENT_2_05, "", None;
    }

    /** `coap_set_payload` */
    method SetPayload(bytes: string, length: nat)
      requires length <= |bytes|
      modifies this`payload
      ensures payload == bytes[..Min(chunk, length)]
    {
      payload := bytes[..Min(chunk, length)];
    }

    /** `coap_set_header_block2` */
    method SetBlock2(num: nat, more: bool, size: nat) returns (ok: bool)
      modifies this`block2
      ensures ok == (16 <= size <= 2048 && num <= 0xFFFFF)
      ensures block2 == if ok then Some(Block2(num, more, size)) else old(block2)
    {
      if size < 16 || size > 2048 || num > 0xFFFFF {
        return false;
      }
      block2 := Some(Block2(num, more, size));
      return true;
    }

    /** The blockwise part of `coap_receive`, after the resource handler has run. `num` is the block
        that the client asks for, if it asks for one, and `offset` where it begins; a handler that
        leaves the offset as it was is unaware of blocks. */
    method Blockwise(num: Option<nat>, offset: nat, size: nat, newOffset: int, block1: bool) returns (status: Status)
      requires chunk >= 16 && |payload| <= chunk && 16 <= size <= MaxBlockSize(chunk)
      requires num.Some? ==> num.value <= 0xFFFFF
      modifies this
      ensures status == NOT_IMPLEMENTED_5_01 <==> block1 && old(code) < BAD_REQUEST_4_00
      ensures status == NO_ERROR && num.Some? && newOffset == offset ==>
                if offset >= |old(payload)| then code == BAD_OPTION_4_02 && block2 == old(block2)
                else
                  && code == old(code) && block2 == Some(Block2(num.value, offset + size < |old(payload)|, size))
                  && payload == old(payload)[offset..Min(|old(payload)|, offset + size)]
      ensures status == NO_ERROR && num.Some? && newOffset != offset ==>
                && code == old(code)
                && block2 == Some(Block2(num.value, newOffset != -1 || |old(payload)| > size, size))
                && payload == old(payload)[..Min(|old(payload)|, size)]
      ensures status == NO_ERROR && num.None? && newOffset != 0 ==>
                && code == old(code) && block2 == Some(Block2(0, newOffset != -1, MaxBlockSize(chunk)))
                && payload == old(payload)[..Min(|old(payload)|, MaxBlockSize(chunk))]
      ensures status == NOT_IMPLEMENTED_5_01 || (num.None? && newOffset == 0) ==>
                payload == old(payload) && code == old(code) && block2 == old(block2)
    {
      status := NO_ERROR;
      if block1 && code < BAD_REQUEST_4_00 {
        return NOT_IMPLEMENTED_5_01;
      }
      if num.Some? {
        if newOffset == offset {
          if offset >= |payload| {
            code := BAD_OPTION_4_02;
            SetPayload("BlockOutOfScope", 15);
          } else {
            var _ := SetBlock2(num.value, |payload| - offset > size, size);
            SetPayload(payload[offset..], Min(|payload| - offset, size));
          }
        } else {
          var _ := SetBlock2(num.value, newOffset != -1 || |payload| > size, size);
          if |payload| > size {
            SetPayload(payload, size);
          }
        }
      } else if newOffset != 0 {
        var _ := SetBlock2(0, newOffset != -1, MaxBlockSize(chunk));
        SetPayload(payload, Min(|payload|, MaxBlockSize(chunk)));
      }
    }
  }

  // ----- whole transfers -----

  lemma NextOffset(num: nat, size: nat)
    ensures (num + 1) * size == num * size + size
    ensures size > 0 ==> num <= num * size
  {
    assert size > 0 ==> num * size == num + num * (size - 1);
  }

  /** The offset of a block as the receiver decodes it. */
  method DecodedOffset(num: nat, size: nat) returns (offset: nat)
    requires num <= 0xFFFFF && CoapFields.BlockSize(size)
    ensures offset == num * size
  {
    CoapFields.BlockRoundTrip(num, false, size);
    offset := CoapFields.BlockOf(CoapFields.BlockBits(num, false, size)).offset;
  }

  /** A request for block `num` of a resource that answers with all of `p`. */
  method ServeUnaware(chunk: nat, p: string, num: nat, size: nat, ghost offset: nat) returns (r: Response)
    requires chunk >= 16 && |p| <= chunk && CoapFields.BlockSize(size) && size <= MaxBlockSize(chunk) && num <= 0xFFFFF
    requires offset == num * size
    ensures fresh(r)
    ensures if offset >= |p| then r.code == BAD_OPTION_4_02 && r.block2 == None
            else
              && r.code == CONTENT_2_05 && r.block2 == Some(Block2(num, offset + size < |p|, size))
              && r.payload == p[offset..Min(|p|, offset + size)]
  {
    var blockOffset := DecodedOffset(num, size);
    r := new Response(chunk);
    r.SetPayload(p, |p|);
    var _ := r.Blockwise(Some(num), blockOffset, size, blockOffset, false);
  }

  /** Fetching block 0, 1, 2, ... until `more` is clear gives the payload; every block behind the
      last one is refused, as ServeUnaware says. */
  method FetchUnaware(chunk: nat, p: string, size: nat) returns (received: string, blocks: nat)
    requires chunk >= 16 && 0 < |p| <= chunk <= 0xFFFFF && CoapFields.BlockSize(size) && size <= MaxBlockSize(chunk)
    ensures received == p
    ensures blocks > 0 && (blocks - 1) * size < |p| <= blocks * size
  {
    received, blocks := "", 0;
    ghost var offset := 0;
    var more := true;
    while more
      invariant offset == blocks * size
      invariant if more then offset < |p| && received == p[..offset] && blocks <= offset
                else received == p && blocks > 0 && (blocks - 1) * size < |p| <= offset
      decreases more, |p| - offset
    {
      var r := ServeUnaware(chunk, p, blocks, size, offset);
      received := received + r.payload;
      assert received == p[..Min(|p|, offset + size)] && p[..|p|] == p;
      more := r.block2.value.more;
      NextOffset(blocks, size);
      NextOffset(blocks + 1, size);
      blocks := blocks + 1;
      offset := offset + size;
    }
  }

  /** A request for a block of the resource listing, which is generated block by block. */
  method ServeListing(chunk: nat, rs: seq<WellKnownCore.Resource>, buffer: array<char>, num: nat, size: nat,
                      ghost offset: nat) returns (r: Response)
    requires chunk >= 16 && CoapFields.BlockSize(size) && size <= MaxBlockSize(chunk) && chunk < buffer.Length
             && num <= 0xFFFFF
    requires offset == num * size
    modifies buffer
    ensures fresh(r)
    ensures offset < |WellKnownCore.Listing(rs)| || rs == [] ==>
              && r.block2 == Some(Block2(num, offset + size < |WellKnownCore.Listing(rs)|, size))
              && r.payload == WellKnownCore.Window(WellKnownCore.Listing(rs), offset, size)
  {
    var blockOffset := DecodedOffset(num, size);
    r := new Response(chunk);
    WellKnownCore.SomeListing(rs);
    var newOffset, bufpos, status := WellKnownCore.Handler(rs, buffer, size, blockOffset);
    var n := Min(bufpos, chunk);
    r.SetPayload(buffer[..n], n);
    assert r.payload[..Min(n, size)] == buffer[..Min(bufpos, size)];
    var _ := r.Blockwise(Some(num), blockOffset, size, newOffset, false);
  }

  /** Fetching the listing block by block. */
  method FetchListing(chunk: nat, rs: seq<WellKnownCore.Resource>, buffer: array<char>, size: nat)
      returns (received: string)
    requires chunk >= 16 && CoapFields.BlockSize(size) && size <= MaxBlockSize(chunk) && chunk < buffer.Length
    requires |WellKnownCore.Listing(rs)| <= 0xFFFFF
    modifies buffer
    ensures received == WellKnownCore.Listing(rs)
  {
    ghost var all, offset := WellKnownCore.Listing(rs), 0;
    received := "";
    var num, more := 0, true;
    WellKnownCore.SomeListing(rs);
    while more
      invariant offset == num * size
      invariant if more then (offset < |all| || (num == 0 && rs == [])) && received == all[..offset] && num <= offset
                else received == all
      decreases more, |all| - offset
    {
      var r := ServeListing(chunk, rs, buffer, num, size, offset);
      received := received + r.payload;
      assert received == all[..Min(|all|, offset + size)] && all[..|all|] == all;
      more := r.block2.value.more;
      NextOffset(num, size);
      NextOffset(num + 1, size);
      num := num + 1;
      offset := offset + size;
    }
  }
}
