/**
  The text hooks of src/hooks.rs that hand the host's strings to the
  translation gateway: the sized ones (`string_copy_n`, `string_append_n`,
  `std_string_ctor`), the C-string ones (`std_string_append`,
  `std_string_assign`) and the `addst` family (`addst`, `addst_top`,
  `addst_flag`). Each asks `translate_bytes` for a translation and calls the
  host's original routine either with the translation or with its own
  arguments unchanged.
*/
module TextHooks {
  import opened Common
  import opened Utf8
  import opened Text
  import opened Gateway
  import opened ForeignString

  /** One more than the largest `usize`. */
  const UsizeModulus: nat := 0x1_0000_0000_0000_0000

  /** The buffer and the byte count a sized hook hands to the host's original routine. */
  datatype SizedCall = SizedCall(bytes: seq<byte>, size: nat)

  /**
    The call a sized hook makes once `translate_bytes` has answered: with no
    translation the host's own bytes and size; with one, the translation's
    buffer and its length minus one (a `usize` subtraction, which wraps).
  */
  function SizedForward(src: seq<byte>, translation: Option<seq<byte>>): (c: SizedCall)
    ensures translation.None? ==> c == SizedCall(src, |src|)
    ensures translation.Some? ==> c.bytes == translation.value
    ensures translation.Some? && 0 < |translation.value| <= UsizeModulus ==>
              c.size == |translation.value| - 1 && c.size < |c.bytes|
    ensures translation == Some([]) ==> c.size == UsizeModulus - 1 && c.size > |c.bytes|
  {
    match translation
    case None => SizedCall(src, |src|)
    case Some(t) => SizedCall(t, (|t| + UsizeModulus - 1) % UsizeModulus)
  }

  /**
    `string_copy_n`, `string_append_n` and `std_string_ctor`, which share one
    body: `src` is the `size` bytes the host passes. Only more than one byte
    goes to `translate_bytes`; since that never returns a translation, the
    original routine always receives the host's own bytes and size.
  */
  method SizedTextHook(g: TranslationGateway, src: seq<byte>, writable: bool) returns (c: SizedCall)
    requires g.Valid()
    modifies g
    ensures g.Valid()
    ensures c == SizedCall(src, |src|)
    ensures g.State() == if |src| > 1 then Translated(old(g.State()), src, writable) else old(g.State())
  {
    if |src| > 1 {
      var translation := g.TranslateBytes(src, writable);
      c := SizedForward(src, translation);
    } else {
      c := SizedCall(src, |src|);
    }
  }

  /** `CStr::to_bytes`: the bytes of a NUL-terminated C string before its first NUL. */
  function CStrBytes(mem: seq<byte>): (r: seq<byte>)
    requires 0 in mem
    ensures r <= mem && |r| < |mem| && mem[|r|] == 0
    ensures forall i | 0 <= i < |r| :: r[i] != 0
  {
    if mem[0] == 0 then [] else [mem[0]] + CStrBytes(mem[1..])
  }

  /** The C string a C-string hook hands on: the translation when there is one, the host's own otherwise. */
  function CStrForward(src: seq<byte>, translation: Option<seq<byte>>): (r: seq<byte>)
    ensures translation.None? ==> r == src
    ensures translation.Some? ==> r == translation.value
  {
    if translation.Some? then translation.value else src
  }

  /**
    `std_string_append` and `std_string_assign`: `src` is the host's memory
    from the argument pointer on, holding a NUL. The bytes before the NUL go
    to `translate_bytes` whatever their number, and the original routine
    receives the host's own pointer.
  */
  method CStrTextHook(g: TranslationGateway, src: seq<byte>, writable: bool) returns (forwarded: seq<byte>)
    requires g.Valid() && 0 in src
    modifies g
    ensures g.Valid()
    ensures forwarded == src
    ensures g.State() == Translated(old(g.State()), CStrBytes(src), writable)
  {
    var translation := g.TranslateBytes(CStrBytes(src), writable);
    forwarded := CStrForward(src, translation);
  }

  /**
    A C string has no NUL before its end, so `translate_bytes` strips nothing
    from it: an empty C string or one that is not UTF-8 is skipped, and any
    other is offered exactly as it decodes.
  */
  lemma CStrTextIsWhole(mem: seq<byte>)
    requires 0 in mem
    ensures var b := CStrBytes(mem);
            TextForTranslation(b) == if b == [] then None else Decode(b)
  {
    var b := CStrBytes(mem);
    var r := TextForTranslation(b);
    if r.Some? {
      var t := r.value;
      assert |Encode(t)| == |b| by {
        if |Encode(t)| < |b| {
          ZeroAfter(b, |Encode(t)|);
        }
      }
      assert Encode(t) == b;
      DecodeEncode(t);
    }
  }

  lemma ZeroAfter(b: seq<byte>, k: nat)
    requires k < |b| && AllZero(b[k..])
    ensures b[k] == 0
  {
    assert b[k..][0] == b[k];
  }

  /**
    The `addst` family once `translate_bytes` has answered: with no
    translation the host's own string; with one, a string built from the
    translation without its last byte (the terminator), through the Linux
    inline-pointer fix-up; and nothing usable when the translation is empty,
    where the length subtraction underflows.
  */
  method AddstForward(src: CxxString, translation: Option<seq<byte>>) returns (arg: Option<CxxString>)
    ensures translation.None? ==> arg == Some(src)
    ensures translation == Some([]) ==> arg == None
    ensures translation.Some? && translation.value != [] ==>
              && arg.Some? && fresh(arg.value) && arg.value.Valid()
              && arg.value.Content() == translation.value[..|translation.value| - 1]
              && (arg.value.ptr == InlineBuffer <==> |translation.value| - 1 < 16)
  {
    match translation {
      case None =>
        arg := Some(src);
      case Some(t) =>
        if t == [] {
          arg := None;
        } else {
          var built := BuildHostString(t[..|t| - 1]);
          arg := Some(built);
        }
    }
  }

  /**
    `addst`, `addst_top` and `addst_flag`: the host string's bytes without
    their terminator go to `translate_bytes`, and the original routine
    receives the host's own string, untouched.
  */
  method AddstHook(g: TranslationGateway, src: CxxString, writable: bool) returns (arg: CxxString)
    requires g.Valid() && src.Valid()
    modifies g
    ensures g.Valid()
    ensures arg == src && src.Content() == old(src.Content())
    ensures g.State() == Translated(old(g.State()), src.Content(), writable)
  {
    var translation := g.TranslateBytes(src.Content(), writable);
    var forwarded := AddstForward(src, translation);
    arg := forwarded.value;
  }
}
