/** The three string output streams of trio behind one OutStream operation. Whatever the stream, a
    run of the engine appends to one sequence of characters, `written`; the kinds differ in what
    part of it the memory holds. */
module TrioStream {
  import opened CText

  /** The function pointer in trio_T: TrioOutStreamString, -StringMax or -StringDynamic. */
  datatype Kind = Unbounded | Bounded | Doubling

  const DYNAMIC_START_SIZE := 32

  class Stream {
    const kind: Kind
    const max: nat
    var processed: nat
    var committed: nat
    /** The caller's memory, or the growing block of a Doubling stream (null until first use). */
    var buffer: array?<char>
    /** dynamicBuffer.length. */
    var length: nat

    /** Every character sent so far. */
    ghost var written: string
    /** What the caller's memory held at the start. */
    ghost const initial: string
    ghost var Repr: set<object>

    ghost predicate Valid()
      reads this, Repr
      ensures Valid() ==> this in Repr
    {
      && this in Repr
      && (buffer != null ==> buffer in Repr)
      && processed == |written|
      && match kind {
           case Unbounded =>
             && buffer != null && committed == |written| < buffer.Length == |initial|
             && buffer[..] == written + initial[committed..]
           case Bounded =>
             && buffer != null && committed == Min(|written|, max)
             && max <= buffer.Length == |initial|
             && buffer[..] == written[..committed] + initial[committed..]
           case Doubling =>
             && committed == length == |written|
             && (buffer == null ==> written == [])
             && (buffer != null ==> 1 <= committed < buffer.Length && buffer[..committed] == written)
         }
    }

    /** A caller of sprintf() provides memory for the whole output and its terminator. */
    ghost predicate HasRoom(n: nat)
      reads this
    {
      kind == Unbounded ==> |written| + n < |initial|
    }

    /** &buffer for sprintf(). */
    constructor ToString(memory: array<char>)
      requires memory.Length >= 1
      ensures Valid() && fresh(Repr - {memory}) && kind == Unbounded && buffer == memory
      ensures written == "" && initial == memory[..]
    {
      kind, max, processed, committed, buffer, length := Unbounded, 0, 0, 0, memory, 0;
      written, initial, Repr := "", memory[..], {this, memory};
    }

    /** &buffer and the size less the terminator for snprintf(). */
    constructor ToStringMax(memory: array<char>, size: nat)
      requires size <= memory.Length
      ensures Valid() && fresh(Repr - {memory}) && kind == Bounded && buffer == memory && max == size
      ensures written == "" && initial == memory[..]
    {
      kind, max, processed, committed, buffer, length := Bounded, size, 0, 0, memory, 0;
      written, initial, Repr := "", memory[..], {this, memory};
    }

    /** An empty dynamicBuffer for asprintf(). */
    constructor ToDynamic()
      ensures Valid() && fresh(Repr) && kind == Doubling && buffer == null && written == ""
    {
      kind, max, processed, committed, buffer, length := Doubling, 0, 0, 0, null, 0;
      written, initial, Repr := "", "", {this};
    }

    /** self->OutStream(self, output). */
    method Put(output: char)
      requires Valid() && HasRoom(1)
      modifies Repr
      ensures Valid() && fresh(Repr - old(Repr))
      ensures written == old(written) + [output]
      ensures kind != Doubling ==> buffer == old(buffer)
    {
      match kind
      case Unbounded =>
        buffer[committed] := output;
        processed := processed + 1;
        committed := committed + 1;
        written := written + [output];
      case Bounded =>
        if processed < max {
          buffer[committed] := output;
          committed := committed + 1;
        }
        processed := processed + 1;
        written := written + [output];
        assert written[..committed] == if old(processed) < max then old(written) + [output]
                                       else old(written)[..committed];
      case Doubling =>
        PutDoubling(output);
    }

    /** *buffer = NIL at the end of what is in the caller's memory. */
    method Terminate()
      requires Valid() && kind != Doubling && committed < |initial|
      modifies buffer
      ensures var kept := if kind == Unbounded then |written| else Min(|written|, max);
              && buffer != null && kept < |initial|
              && buffer[..] == written[..kept] + ['\0'] + initial[kept + 1..]
    {
      buffer[committed] := '\0';
      assert kind == Unbounded ==> written[..committed] == written;
    }

    /** TrioOutStreamStringDynamic: allocate, or double when the next character and a terminator
        would not fit. */
    method PutDoubling(output: char)
      requires Valid() && kind == Doubling
      modifies Repr
      ensures Valid() && fresh(Repr - old(Repr))
      ensures written == old(written) + [output]
      ensures buffer != null
      ensures buffer.Length == if old(buffer) == null then DYNAMIC_START_SIZE
                               else if old(committed) + 1 >= old(buffer).Length then 2 * old(buffer).Length
                               else old(buffer).Length
    {
      if buffer == null {
        buffer := new char[DYNAMIC_START_SIZE];
        processed := 0;
        committed := 0;
        Repr := Repr + {buffer};
      } else if committed + 1 >= buffer.Length {
        var bigger := new char[buffer.Length * 2];
        forall i | 0 <= i < buffer.Length {
          bigger[i] := buffer[i];
        }
        assert bigger[..committed] == buffer[..committed];
        buffer := bigger;
        Repr := Repr + {buffer};
      }
      buffer[committed] := output;
      committed := committed + 1;
      processed := processed + 1;
      length := committed;
      written := written + [output];
    }
  }
}
