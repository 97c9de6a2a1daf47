/**
  The host's `std::string` object as the hooks see it (libstdc++ layout): a
  data pointer, a length, and a 16-byte inline buffer used for contents of at
  most 15 bytes (the small-string representation). The data pointer either
  aims at the object's own inline buffer, at a heap block, or, right after
  `CxxString::new` has built a short string and moved it out, at neither.
*/
module ForeignString {
  import opened Common

  /** The longest content the inline buffer holds; the buffer has one more byte for the terminator. */
  const InlineCapacity: nat := 15

  /** Where the data pointer aims. */
  datatype Target = InlineBuffer | HeapBlock | Elsewhere

  class CxxString {
    var ptr: Target
    var len: nat
    const sso: array<byte>
    var heap: array<byte>

    /** The pointer aims at storage of this object, and the content plus its terminator fit there. */
    ghost predicate Valid()
      reads this
    {
      && sso.Length == InlineCapacity + 1
      && sso != heap
      && ptr != Elsewhere
      && len < Storage().Length
    }

    /** The storage the data pointer aims at. */
    function Storage(): array<byte>
      reads this
      requires ptr != Elsewhere
    {
      if ptr == InlineBuffer then sso else heap
    }

    /** The bytes of the string, without its terminator (`to_bytes_without_nul`). */
    function Content(): (s: seq<byte>)
      reads this, sso, heap
      requires Valid()
      ensures |s| == len
    {
      Storage()[..len]
    }

    /**
      `CxxString::new(ptr, len)`: a short content is copied into the inline
      buffer, a long one into a fresh heap block. For a short content the data
      pointer is left aiming at the inline buffer of the value as it was
      before being moved out of `new`, so not at this object's own buffer.
    */
    constructor New(bytes: seq<byte>)
      ensures fresh(sso) && fresh(heap)
      ensures sso.Length == InlineCapacity + 1 && sso != heap && len == |bytes|
      ensures |bytes| <= InlineCapacity ==> ptr == Elsewhere && sso[..len] == bytes
      ensures |bytes| > InlineCapacity ==> ptr == HeapBlock && Valid() && Content() == bytes
    {
      len := |bytes|;
      if |bytes| <= InlineCapacity {
        sso := new byte[InlineCapacity + 1](i => if 0 <= i < |bytes| then bytes[i] else 0);
        heap := new byte[0];
        ptr := Elsewhere;
      } else {
        sso := new byte[InlineCapacity + 1](i => 0);
        heap := new byte[|bytes| + 1](i => if 0 <= i < |bytes| then bytes[i] else 0);
        ptr := HeapBlock;
      }
    }

    /**
      The Linux fix-up after building a string for the host: a content shorter
      than 16 bytes must be read through the object's own inline buffer.
    */
    method FixInlinePointer()
      requires sso.Length == InlineCapacity + 1 && sso != heap
      modifies this
      ensures len == old(len) && heap == old(heap)
      ensures len < 16 ==> ptr == InlineBuffer
      ensures len >= 16 ==> ptr == old(ptr)
    {
      if len < 16 {
        ptr := InlineBuffer;
      }
    }

    /** `std::string::push_back`: appends one byte, moving to a larger heap block when the current storage is full. */
    method PushBack(b: byte)
      requires Valid()
      modifies this, Storage()
      ensures Valid()
      ensures Content() == old(Content()) + [b]
      ensures ptr == old(ptr) || ptr == HeapBlock
      ensures heap == old(heap) || fresh(heap)
    {
      var a := Storage();
      if len + 1 < a.Length {
        a[len] := b;
        len := len + 1;
      } else {
        var grown := new byte[2 * a.Length + 1];
        var i := 0;
        while i < len
          invariant 0 <= i <= len
          invariant grown[..i] == a[..i]
          modifies grown
        {
          grown[i] := a[i];
          i := i + 1;
        }
        grown[len] := b;
        assert grown[..len + 1] == a[..len] + [b];
        heap := grown;
        ptr := HeapBlock;
        len := len + 1;
      }
    }
  }

  /**
    A string built for the host on Linux, as the `addst` hooks do:
    `CxxString::new` followed by the inline-pointer fix-up. A content shorter
    than 16 bytes ends up inline and a longer one on the heap; either way the
    string reads back as exactly that content.
  */
  method BuildHostString(content: seq<byte>) returns (s: CxxString)
    ensures fresh(s) && s.Valid()
    ensures s.Content() == content
    ensures s.ptr == InlineBuffer <==> |content| < 16
    ensures s.ptr == HeapBlock <==> |content| >= 16
  {
    s := new CxxString.New(content);
    s.FixInlinePointer();
  }
}
