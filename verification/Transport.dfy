/** Sending a message that lies in several fragments, and collecting it on the other side.
    FragmentedBuffer is the cursor over the fragments, MessageInfo the receiving buffer. */
module Transport {
  import opened Bytes
  import opened Sequences

  /** One fragment: the first `length` bytes of a block that may be longer. */
  datatype Fragment = Fragment(length: nat, contents: seq<byte>)

  ghost predicate FragmentsFit(fragments: seq<Fragment>)
  {
    forall i :: 0 <= i < |fragments| ==> fragments[i].length <= |fragments[i].contents|
  }

  ghost function Pieces(fragments: seq<Fragment>): (s: seq<seq<byte>>)
    requires FragmentsFit(fragments)
    ensures |s| == |fragments|
    ensures forall i :: 0 <= i < |s| ==> s[i] == fragments[i].contents[..fragments[i].length]
  {
    seq(|fragments|, i requires 0 <= i < |fragments| => fragments[i].contents[..fragments[i].length])
  }

  /** The message: the contents of all fragments in order. */
  ghost function MessageOf(fragments: seq<Fragment>): seq<byte>
    requires FragmentsFit(fragments)
  {
    Flatten(Pieces(fragments))
  }

  /** The message, fragment by fragment. */
  lemma MessageMeaning(fragments: seq<Fragment>, f: Fragment)
    requires FragmentsFit(fragments) && f.length <= |f.contents|
    ensures MessageOf([]) == [] && MessageOf(fragments + [f]) == MessageOf(fragments) + f.contents[..f.length]
  {
    assert Pieces(fragments + [f]) == Pieces(fragments) + [f.contents[..f.length]];
    FlattenSnoc(Pieces(fragments), f.contents[..f.length]);
  }

  /** A byte behind the last fragment is a byte behind the message. */
  lemma MessageGrows(fragments: seq<Fragment>, b: byte)
    requires FragmentsFit(fragments) && fragments != []
    requires var f := fragments[|fragments| - 1]; f.length < |f.contents|
    ensures var last := |fragments| - 1; var f := fragments[last];
      var grown := fragments[last := Fragment(f.length + 1, f.contents[f.length := b])];
      FragmentsFit(grown) && MessageOf(grown) == MessageOf(fragments) + [b]
  {
    var last := |fragments| - 1;
    var f := fragments[last];
    var before, after := Pieces(fragments), Pieces(fragments[last := Fragment(f.length + 1, f.contents[f.length := b])]);
    assert after[last] == before[last] + [b];
    assert after[..last] == before[..last];
    FlattenStep(before, last);
    FlattenStep(after, last);
    AppendAssociative(Flatten(before[..last]), before[last], [b]);
  }

  /** The conditions the class states about the position of its pointer. */
  ghost predicate Within(fragments: seq<Fragment>, current: nat, offset: nat)
  {
    && FragmentsFit(fragments)
    && current <= |fragments|
    && (current < |fragments| ==> offset <= fragments[current].length)
    && (current == |fragments| ==> offset == 0)
  }

  /** The sum of the lengths of the first `i` fragments. */
  ghost function LengthBefore(fragments: seq<Fragment>, i: nat): nat
    requires i <= |fragments|
  {
    if i == 0 then 0 else LengthBefore(fragments, i - 1) + fragments[i - 1].length
  }

  /** The fragments up to `i` hold the beginning of the message, and fragment `i` what follows. */
  lemma {:induction false} MessageLayout(fragments: seq<Fragment>, i: nat)
    requires FragmentsFit(fragments) && i <= |fragments|
    ensures LengthBefore(fragments, i) == |Flatten(Pieces(fragments)[..i])|
  {
    if i == 0 {
      assert Pieces(fragments)[..0] == [];
    } else {
      MessageLayout(fragments, i - 1);
      FlattenStep(Pieces(fragments), i - 1);
    }
  }

  /** The message is as long as its fragments together. */
  lemma MessageLength(fragments: seq<Fragment>)
    requires FragmentsFit(fragments)
    ensures |MessageOf(fragments)| == LengthBefore(fragments, |fragments|)
  {
    MessageLayout(fragments, |fragments|);
    assert Pieces(fragments)[..|fragments|] == Pieces(fragments);
  }

  lemma {:induction false} SameLengthsBefore(a: seq<Fragment>, b: seq<Fragment>, i: nat)
    requires i <= |a| && i <= |b| && a[..i] == b[..i]
    ensures LengthBefore(a, i) == LengthBefore(b, i)
  {
    if i > 0 {
      assert a[..i - 1] == a[..i][..i - 1] && b[..i - 1] == b[..i][..i - 1];
      assert a[i - 1] == a[..i][i - 1] && b[i - 1] == b[..i][i - 1];
      SameLengthsBefore(a, b, i - 1);
    }
  }

  class FragmentedBuffer {
    var fragments: seq<Fragment>      // empty for the null array, when only a header is sent
    var currentFragment: nat
    var offsetInCurrent: nat

    ghost predicate Positioned()
      reads this
    {
      Within(fragments, currentFragment, offsetInCurrent)
    }

    /** The place from which `Copy` may be called: on a fragment, or anywhere in the null array. */
    ghost predicate Ready()
      reads this
    {
      Positioned() && (fragments != [] ==> currentFragment < |fragments|)
    }

    ghost function Message(): seq<byte>
      reads this
      requires FragmentsFit(fragments)
    {
      MessageOf(fragments)
    }

    /** How many bytes of the message lie before the pointer. */
    ghost function Position(): nat
      reads this
      requires Positioned()
    {
      LengthBefore(fragments, currentFragment) + offsetInCurrent
    }

    constructor (fragmentsIn: seq<Fragment>)
      ensures fragments == fragmentsIn
    {
      fragments := fragmentsIn;
    }

    method ResetPointer()
      requires FragmentsFit(fragments)
      modifies this`currentFragment, this`offsetInCurrent
      ensures Ready() && Position() == 0
    {
      currentFragment, offsetInCurrent := 0, 0;
    }

    method TotalLength() returns (total: nat)
      requires FragmentsFit(fragments)
      ensures total == |Message()|
    {
      total := 0;
      for i := 0 to |fragments|
        invariant total == LengthBefore(fragments, i)
      {
        total := total + fragments[i].length;
      }
      MessageLength(fragments);
    }

    method RestLength() returns (rest: nat)
      requires Positioned()
      ensures Position() <= |Message()| && rest == |Message()| - Position()
    {
      var total := 0;
      for i := currentFragment to |fragments|
        invariant total == LengthBefore(fragments, i) - LengthBefore(fragments, currentFragment)
        invariant currentFragment < i ==> offsetInCurrent <= total
      {
        total := total + fragments[i].length;
      }
      MessageLength(fragments);
      return total - offsetInCurrent;
    }

    /** Adds a byte to the last fragment, which must have room for it. The pointer stays before it. */
    method AppendByte(b: byte)
      requires FragmentsFit(fragments) && fragments != []
      requires fragments[|fragments| - 1].length < |fragments[|fragments| - 1].contents|
      modifies this`fragments
      ensures FragmentsFit(fragments) && |fragments| == |old(fragments)|
      ensures Message() == old(Message()) + [b]
      ensures old(Positioned()) && currentFragment < |fragments| ==> Positioned() && Position() == old(Position())
    {
      var last := |fragments| - 1;
      var f := fragments[last];
      fragments := fragments[last := Fragment(f.length + 1, f.contents[f.length := b])];
      hide MessageOf;
      MessageGrows(old(fragments), b);
      if currentFragment < |fragments| {
        SameLengthsBefore(old(fragments), fragments, currentFragment);
      }
    }

    /** What one round of `Copy` takes from the current fragment: at most `length` bytes. */
    method CurrentChunk(length: nat) returns (chunk: seq<byte>)
      requires Positioned() && currentFragment < |fragments|
      ensures |chunk| <= length && offsetInCurrent + |chunk| <= fragments[currentFragment].length
      ensures |chunk| == length || offsetInCurrent + |chunk| == fragments[currentFragment].length
      ensures Agrees(chunk, Message(), Position())
      ensures currentFragment + 1 == |fragments| ==>
        Position() - offsetInCurrent + fragments[currentFragment].length == |Message()|
    {
      var step := fragments[currentFragment].length - offsetInCurrent;
      if step > length { step := length; }
      chunk := fragments[currentFragment].contents[offsetInCurrent..offsetInCurrent + step];
      CurrentWithinMessage(fragments, currentFragment, offsetInCurrent, chunk);
    }

    /** Copies the next `n` bytes of the message and advances the pointer; `copied` is what is stored at the successive
        addresses from `dest` on. There must be a current fragment, even when `n` is 0. */
    method Copy(n: nat) returns (copied: seq<byte>)
      requires Ready()
      requires n <= |Message()| - Position()
      modifies this`currentFragment, this`offsetInCurrent
      ensures Ready() && Position() == old(Position()) + n
      ensures copied == Message()[old(Position())..old(Position()) + n]
    {
      copied := [];
      if fragments == [] { return; }
      var length := n;
      ghost var start, message := Position(), Message();
      assert Agrees(copied, message, start);
      hide Agrees, Flatten;
      while true
        invariant currentFragment < |fragments| && Positioned()
        invariant 0 <= length && |copied| + length == n
        invariant Position() == start + |copied|
        invariant Agrees(copied, message, start)
        decreases |fragments| - currentFragment
      {
        var chunk := CurrentChunk(length);
        AgreesMore(copied, chunk, message, start);
        copied := copied + chunk;
        length := length - |chunk|;
        if length == 0 {
          offsetInCurrent := offsetInCurrent + |chunk|;
          break;
        }
        offsetInCurrent := 0;
        currentFragment := currentFragment + 1;
      }
      AgreesWhole(copied, message, start);
    }
  }

  /** `part` stands in `whole` from index `at` on. */
  ghost predicate Agrees(part: seq<byte>, whole: seq<byte>, at: nat)
  {
    at + |part| <= |whole| && forall k :: 0 <= k < |part| ==> part[k] == whole[at + k]
  }

  lemma AgreesMore(a: seq<byte>, b: seq<byte>, whole: seq<byte>, at: nat)
    requires Agrees(a, whole, at) && Agrees(b, whole, at + |a|)
    ensures Agrees(a + b, whole, at)
  {
  }

  lemma AgreesPart(piece: seq<byte>, whole: seq<byte>, at: nat, offset: nat, part: seq<byte>)
    requires Agrees(piece, whole, at) && offset + |part| <= |piece| && part == piece[offset..offset + |part|]
    ensures Agrees(part, whole, at + offset)
  {
    forall k | 0 <= k < |part| ensures part[k] == whole[at + offset + k] {
      assert part[k] == piece[offset + k] == whole[at + (offset + k)];
    }
  }

  lemma AgreesWhole(part: seq<byte>, whole: seq<byte>, at: nat)
    requires Agrees(part, whole, at)
    ensures part == whole[at..at + |part|]
  {
  }

  /** The bytes of a fragment lie in the message after all earlier fragments; the last one ends it. */
  lemma CurrentWithinMessage(fragments: seq<Fragment>, i: nat, offset: nat, chunk: seq<byte>)
    requires FragmentsFit(fragments) && i < |fragments| && offset + |chunk| <= fragments[i].length
    requires chunk == fragments[i].contents[offset..offset + |chunk|]
    ensures var at := LengthBefore(fragments, i);
      && (i + 1 == |fragments| ==> at + fragments[i].length == |MessageOf(fragments)|)
      && Agrees(chunk, MessageOf(fragments), at + offset)
  {
    var piece := fragments[i].contents[..fragments[i].length];
    MessageLayout(fragments, i);
    FlattenStep(Pieces(fragments), i);
    PieceWithinFlat(Pieces(fragments), i);
    assert Agrees(piece, MessageOf(fragments), LengthBefore(fragments, i));
    AgreesPart(piece, MessageOf(fragments), LengthBefore(fragments, i), offset, chunk);
  }

  const DEFAULT_RQ_FRAME_SIZE := 27

  datatype BufferType = BtNone | BtDefault | BtDynalloc

  /** Collects the parts of one message. A short message uses the built-in frame, a longer one an allocated block. */
  class MessageInfo {
    var buffer: array?<byte>
    var offset: nat
    var total: nat
    const defaultFrame: array<byte>
    var bufferType: BufferType

    ghost predicate Collecting()
      reads this, buffer
    {
      && buffer != null && bufferType != BtNone
      && offset <= total <= buffer.Length
      && (bufferType == BtDefault <==> buffer == defaultFrame)
    }

    /** What has been received so far. */
    ghost function Received(): seq<byte>
      reads this, buffer
      requires Collecting()
    {
      buffer[..offset]
    }

    constructor ()
      ensures bufferType == BtNone && fresh(defaultFrame) && defaultFrame.Length == DEFAULT_RQ_FRAME_SIZE + 1
    {
      defaultFrame := new byte[DEFAULT_RQ_FRAME_SIZE + 1];
      bufferType := BtNone;
      buffer := null;
    }

    method CreateBuffer(size: nat)
      requires defaultFrame.Length == DEFAULT_RQ_FRAME_SIZE + 1
      modifies this
      ensures Collecting() && Received() == [] && total == size
      ensures bufferType == BtDefault <==> size <= 28
      ensures bufferType == BtDynalloc ==> fresh(buffer)
    {
      if size > defaultFrame.Length {
        buffer := new byte[size];
        bufferType := BtDynalloc;
      } else {
        buffer := defaultFrame;
        bufferType := BtDefault;
      }
      offset, total := 0, size;
    }

    /** The part must fit: nothing here checks it. */
    method AddData(data: seq<byte>)
      requires Collecting() && offset + |data| <= total
      modifies this`offset, buffer
      ensures Collecting() && Received() == old(Received()) + data
    {
      CopyBytes(buffer, offset, data);
      offset := offset + |data|;
    }

    predicate HasAll()
      reads this
    {
      offset == total
    }

    /** `freed` is the block given back: an allocated one, not the built-in frame. */
    method Release() returns (freed: array?<byte>)
      modifies this`buffer, this`bufferType
      ensures bufferType == BtNone && buffer == null
      ensures freed == if old(bufferType) == BtDynalloc then old(buffer) else null
    {
      freed := if bufferType == BtDynalloc then buffer else null;
      buffer := null;
      bufferType := BtNone;
    }
  }

  /** The sum of the sizes of some packets. */
  function Sum(sizes: seq<nat>): nat
  {
    if sizes == [] then 0 else sizes[0] + Sum(sizes[1..])
  }

  lemma TakeMore(message: seq<byte>, pos: nat, size: nat)
    requires pos + size <= |message|
    ensures message[..pos + size] == message[..pos] + message[pos..pos + size]
  {
  }

  /** One packet: the next `size` bytes leave the sender and enter the receiver. What has arrived is always the part of
      the message before the sender's pointer, so the two lengths complement each other and the receiver is complete
      exactly when the sender has nothing left. */
  method SendPacket(sender: FragmentedBuffer, receiver: MessageInfo, size: nat)
    requires sender.Ready() && receiver.Collecting()
    requires receiver.total == |sender.Message()|
    requires sender.Position() + size <= |sender.Message()|
    requires receiver.Received() == sender.Message()[..sender.Position()]
    modifies sender`currentFragment, sender`offsetInCurrent, receiver`offset, receiver.buffer
    ensures sender.Ready() && receiver.Collecting()
    ensures sender.Position() == old(sender.Position()) + size <= |sender.Message()|
    ensures receiver.Received() == sender.Message()[..sender.Position()]
    ensures receiver.offset + (|sender.Message()| - sender.Position()) == receiver.total
    ensures receiver.HasAll() <==> sender.Position() == |sender.Message()|
  {
    hide MessageOf, LengthBefore;
    ghost var pos, message := sender.Position(), sender.Message();
    var data := sender.Copy(size);
    receiver.AddData(data);
    TakeMore(message, pos, size);
  }

  /** However the message is stored in fragments and however it is cut into packets, it arrives whole. */
  method Transfer(sender: FragmentedBuffer, receiver: MessageInfo, sizes: seq<nat>)
    requires FragmentsFit(sender.fragments)
    requires receiver.defaultFrame.Length == DEFAULT_RQ_FRAME_SIZE + 1
    requires Sum(sizes) == |sender.Message()|
    modifies sender`currentFragment, sender`offsetInCurrent, receiver, receiver.defaultFrame
    ensures receiver.Collecting() && receiver.HasAll()
    ensures receiver.Received() == sender.Message() && receiver.buffer[..receiver.total] == sender.Message()
  {
    sender.ResetPointer();
    var length := sender.TotalLength();
    receiver.CreateBuffer(length);
    assert sizes[0..] == sizes;
    for i := 0 to |sizes|
      invariant sender.Ready() && receiver.Collecting()
      invariant receiver.bufferType == BtDynalloc ==> fresh(receiver.buffer)
      invariant receiver.total == |sender.Message()|
      invariant sender.Position() + Sum(sizes[i..]) == |sender.Message()|
      invariant receiver.Received() == sender.Message()[..sender.Position()]
    {
      assert sizes[i..][0] == sizes[i] && sizes[i..][1..] == sizes[i + 1..];
      SendPacket(sender, receiver, sizes[i]);
    }
  }

  /** `memcpy` of a piece into a block. */
  method CopyBytes(dest: array<byte>, at: nat, src: seq<byte>)
    requires at + |src| <= dest.Length
    modifies dest
    ensures forall k :: 0 <= k < dest.Length ==>
      dest[k] == if at <= k < at + |src| then src[k - at] else old(dest[k])
  {
    forall i | 0 <= i < |src| { dest[at + i] := src[i]; }
  }

  /** A piece lies in the flattened message after all earlier pieces. */
  lemma PieceWithinFlat<T>(pieces: seq<seq<T>>, i: nat)
    requires i < |pieces|
    ensures |Flatten(pieces[..i])| + |pieces[i]| <= |Flatten(pieces)|
    ensures forall k :: 0 <= k < |pieces[i]| ==> pieces[i][k] == Flatten(pieces)[|Flatten(pieces[..i])| + k]
  {
    FlattenAppend(pieces[..i], pieces[i..]);
    SplitAt(pieces, i);
    assert Flatten(pieces[i..]) == pieces[i] + Flatten(pieces[i + 1..]);
  }

  /** One more piece adds its length; the last one completes the message. */
  lemma FlattenStep<T>(pieces: seq<seq<T>>, i: nat)
    requires i < |pieces|
    ensures Flatten(pieces[..i + 1]) == Flatten(pieces[..i]) + pieces[i]
    ensures i + 1 == |pieces| ==> Flatten(pieces) == Flatten(pieces[..i]) + pieces[i]
  {
    TakeOneMore(pieces, i);
    FlattenSnoc(pieces[..i], pieces[i]);
  }
}
