/**
  The text operations the translation gateway applies to decoded host text:
  Rust's `str::trim` (which strips `char::is_whitespace` characters, the
  Unicode White_Space property) and `str::trim_end_matches('\0')`.
*/
module Text {
  import opened Common
  import opened Utf8

  /** Rust's `char::is_whitespace`: the characters with the Unicode White_Space property. */
  predicate IsWhitespace(c: char)
  {
    var n := c as int;
    (0x09 <= n <= 0x0D) || n == 0x20 || n == 0x85 || n == 0xA0 || n == 0x1680
    || (0x2000 <= n <= 0x200A) || n == 0x2028 || n == 0x2029 || n == 0x202F
    || n == 0x205F || n == 0x3000
  }

  predicate AllWhitespace(s: string) { forall i | 0 <= i < |s| :: IsWhitespace(s[i]) }

  /** Neither end of `s` is whitespace. */
  predicate IsTrimmed(s: string)
  {
    s == [] || (!IsWhitespace(s[0]) && !IsWhitespace(s[|s| - 1]))
  }

  /** `s` without its trailing whitespace. */
  function TrimEnd(s: string): (r: string)
    ensures r <= s
    ensures r == [] || !IsWhitespace(r[|r| - 1])
    ensures forall i | |r| <= i < |s| :: IsWhitespace(s[i])
  {
    if s != [] && IsWhitespace(s[|s| - 1]) then TrimEnd(s[..|s| - 1]) else s
  }

  /** `s` without its leading whitespace. */
  function TrimStart(s: string): (r: string)
    ensures |r| <= |s| && r == s[|s| - |r|..]
    ensures r == [] || !IsWhitespace(r[0])
    ensures forall i | 0 <= i < |s| - |r| :: IsWhitespace(s[i])
  {
    if s != [] && IsWhitespace(s[0]) then TrimStart(s[1..]) else s
  }

  /** Rust's `str::trim`. */
  function Trim(s: string): (r: string)
    ensures IsTrimmed(r)
    ensures r == [] <==> AllWhitespace(s)
    ensures |r| <= |s|
  {
    var e := TrimEnd(s);
    var r := TrimStart(e);
    Window(s, e, r, |e| - |r|);
    r
  }

  /**
    What `trim` keeps: one contiguous piece of the text, with nothing but
    whitespace before and after it.
  */
  lemma TrimIsWindow(s: string)
    ensures exists k | 0 <= k && k + |Trim(s)| <= |s| ::
              && Trim(s) == s[k..k + |Trim(s)|]
              && AllWhitespace(s[..k]) && AllWhitespace(s[k + |Trim(s)|..])
  {
    var e := TrimEnd(s);
    var r := TrimStart(e);
    var k := |e| - |r|;
    assert Trim(s) == r;
    WindowAround(s, e, r, k);
    assert r == s[k..k + |r|] && AllWhitespace(s[..k]) && AllWhitespace(s[k + |r|..]);
  }

  /**
    A prefix `e` of `s` followed only by whitespace and not ending in it, and
    a suffix `r` of `e` preceded only by whitespace and not starting with it:
    `r` is trimmed, sits at `k` in `s` with only whitespace around it, and is
    empty exactly when `s` is blank.
  */
  lemma Window(s: string, e: string, r: string, k: nat)
    requires e <= s && forall i | |e| <= i < |s| :: IsWhitespace(s[i])
    requires e == [] || !IsWhitespace(e[|e| - 1])
    requires k + |r| == |e| && r == e[k..]
    requires r == [] || !IsWhitespace(r[0])
    requires forall i | 0 <= i < k :: IsWhitespace(e[i])
    ensures k + |r| <= |s| && r == s[k..k + |r|]
    ensures AllWhitespace(s[..k]) && AllWhitespace(s[k + |r|..])
    ensures IsTrimmed(r) && (r == [] <==> AllWhitespace(s))
  {
    WindowAround(s, e, r, k);
    if r != [] {
      assert r[|r| - 1] == e[|e| - 1];
      assert !IsWhitespace(s[k]);
    } else {
      assert e == [];
    }
  }

  lemma WindowAround(s: string, e: string, r: string, k: nat)
    requires e <= s && forall i | |e| <= i < |s| :: IsWhitespace(s[i])
    requires k + |r| == |e| && r == e[k..]
    requires forall i | 0 <= i < k :: IsWhitespace(e[i])
    ensures k + |r| <= |s| && r == s[k..k + |r|]
    ensures AllWhitespace(s[..k]) && AllWhitespace(s[k + |r|..])
  {
    var head := s[..k];
    forall i | 0 <= i < |head| ensures IsWhitespace(head[i]) {
      assert head[i] == e[i];
    }
    var tail := s[k + |r|..];
    forall i | 0 <= i < |tail| ensures IsWhitespace(tail[i]) {
      assert tail[i] == s[|e| + i];
    }
  }

  /** Trimming text that is already trimmed changes nothing, so `trim` is idempotent. */
  lemma TrimOfTrimmed(s: string)
    requires IsTrimmed(s)
    ensures Trim(s) == s
  {
    if s != [] {
      assert TrimEnd(s) == s;
      assert TrimStart(s) == s;
    }
  }

  lemma TrimIdempotent(s: string)
    ensures Trim(Trim(s)) == Trim(s)
  {
    TrimOfTrimmed(Trim(s));
  }

  /** Rust's `str::trim_end_matches('\0')`: `s` without its trailing NUL characters. */
  function TrimTrailingNuls(s: string): (r: string)
    ensures r <= s
    ensures r == [] || r[|r| - 1] != '\0'
    ensures forall i | |r| <= i < |s| :: s[i] == '\0'
  {
    if s != [] && s[|s| - 1] == '\0' then TrimTrailingNuls(s[..|s| - 1]) else s
  }

  predicate AllZero(b: seq<byte>) { forall i | 0 <= i < |b| :: b[i] == 0 }

  /**
    The text `translate_bytes` goes on with: the bytes decoded as UTF-8 with
    trailing NULs removed, or None when they are not UTF-8 or nothing is left.
  */
  function TextForTranslation(b: seq<byte>): (r: Option<string>)
    ensures r.None? <==> Decode(b).None? || AllZero(b)
    ensures r.Some? ==> r.value != [] && r.value[|r.value| - 1] != '\0'
    ensures r.Some? ==> Encode(r.value) <= b && AllZero(b[|Encode(r.value)|..])
  {
    match Decode(b)
    case None => None
    case Some(s) =>
      var t := TrimTrailingNuls(s);
      TextOfDecoded(b, s, t);
      if t == [] then None else Some(t)
  }

  /** How `b`, which decodes to `s`, splits into the encoding of `t` and the zero bytes of the NULs after it. */
  lemma TextOfDecoded(b: seq<byte>, s: string, t: string)
    requires Decode(b) == Some(s) && t == TrimTrailingNuls(s)
    ensures Encode(t) <= b && AllZero(b[|Encode(t)|..])
    ensures t == [] <==> AllZero(b)
  {
    EncodeDecode(b);
    var nuls := s[|t|..];
    assert s == t + nuls;
    EncodeAppend(t, nuls);
    EncodeNuls(nuls);
    assert b[|Encode(t)|..] == Encode(nuls);
    if AllZero(b) {
      EncodeNuls(s);
      assert forall i | 0 <= i < |s| :: s[i] == '\0';
    }
    if t == [] {
      assert b == Encode(nuls);
    }
  }
}
