/** Names copied into heap blocks without their terminator: whether one follows
    them depends on what the allocator zeroed and on what the block held. */
module StoredNames {
  import opened Options
  import opened CStrings
  import opened BlockArena
  import opened BlockAllocator

  /** The block of a name: the name itself, zeroes up to the rounded size that the
      allocator clears, and `kept`, the bytes the block held behind that part (a
      block that is too small to be cut is handed out whole). */
  function Stored(name: string, kept: string): string
    requires name != []
  {
    name + seq(Rounded(|name|) - |name|, _ => NUL) + kept
  }

  lemma RoundedExactly(n: nat)
    requires n > 0
    ensures Rounded(n) == n <==> n % 16 == 0
  {
  }

  /** A terminator follows a name inside its block exactly when its length is no
      multiple of 16 or the block happens to keep a zero byte. */
  lemma TerminatedExactly(name: string, kept: string)
    requires name != [] && NUL !in name
    ensures NUL in Stored(name, kept) <==> |name| % 16 != 0 || NUL in kept
  {
    RoundedExactly(|name|);
    if |name| % 16 != 0 {
      assert Stored(name, kept)[|name|] == NUL;
    } else {
      assert Stored(name, kept) == name + kept;
    }
  }

  /** So it can be relied on, whatever the block held, exactly for lengths that
      are no multiples of 16. */
  lemma TerminatedAlways(name: string)
    requires name != [] && NUL !in name
    ensures (forall kept: string :: NUL in Stored(name, kept)) <==> |name| % 16 != 0
  {
    TerminatedExactly(name, []);
    forall kept: string | |name| % 16 != 0 ensures NUL in Stored(name, kept) {
      TerminatedExactly(name, kept);
    }
    assert |name| % 16 == 0 ==> NUL !in Stored(name, []);
  }

  /** Sixteen letters in a block of sixteen bytes have no terminator; in a block
      that kept a zero byte they have one. */
  lemma SixteenLetters()
    ensures NUL !in Stored("framebufferzero0", []) && NUL in Stored("framebufferzero0", [NUL])
  {
    var name := "framebufferzero0";
    assert |name| == 16;
    TerminatedExactly(name, []);
    TerminatedExactly(name, [NUL]);
  }

  /** The name part of allocate_device: a block for the name, filled with memcpy.
      Behind the name there are zeroes up to the rounded size. */
  method StoreName(blocks: Blocks, name: string, granted: bool) returns (contents: Option<nat>)
    requires blocks.Valid() && |name| <= MAX_REQUEST
    modifies blocks
    ensures blocks.Valid()
    ensures contents != None ==>
              && contents.value >= HEADER && contents.value - HEADER in blocks.busy
              && contents.value - HEADER in blocks.headers
              && Rounded(|name|) <= blocks.headers[contents.value - HEADER].size <= Rounded(|name|) + HEADER + MINIMUM
              && forall i: nat :: i < Rounded(|name|) ==>
                   contents.value + i in blocks.bytes
                   && blocks.bytes[contents.value + i] == if i < |name| then name[i] as int else 0
  {
    hide Inv, Fills, Rounded, NoneFits, FirstFits;
    contents := blocks.Allocate(|name|, granted);
    if contents != None {
      var start := contents.value;
      blocks.CopyIn(start, name);
    }
  }
}
