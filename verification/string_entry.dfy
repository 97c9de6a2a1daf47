/**
  The `standardstringentry` hook of src/hooks.rs: before the host's own text
  entry runs, it merges up to eight pending extended-input code points into
  the string being edited, each through the configured code-point table
  (optionally capitalised), and skips the host's routine when it appended
  anything.
*/
module StringEntry {
  import opened Common
  import opened ForeignString

  /** The `CAPS` bit of the entry flags. */
  const Caps: bv8 := 8

  /** How many pending code points the hook looks at. */
  const PendingSlots: nat := 8

  /** A code point that ends the pending input: NUL or newline. */
  predicate IsSentinel(code: u32) { code == 0 || code == 10 }

  /**
    The byte a pending code point stands for: only code points above 122 that
    the table knows are substituted, capitalised when `caps` is set.
  */
  function Substitute(code: u32, table: map<u32, byte>, caps: bool, capitalize: Table): Option<byte>
  {
    if code > 122 && code in table then Some(if caps then capitalize[table[code]] else table[code]) else None
  }

  /** Bytes the content can still take before reaching `maxlen`. */
  function Room(size: nat, maxlen: nat): nat
  {
    if size < maxlen then maxlen - size else 0
  }

  /**
    The loop of `standardstringentry` over the pending code points with
    `room` bytes left: the bytes it appends and the code points as it leaves
    them (a substituted code point is overwritten with its byte). It appends
    no more bytes than the room and the number of slots allow.
  */
  function Merge(codes: seq<u32>, room: nat, table: map<u32, byte>, caps: bool, capitalize: Table): (r: (seq<byte>, seq<u32>))
    ensures |r.0| <= room && |r.0| <= |codes|
    decreases |codes|
  {
    if codes == [] || IsSentinel(codes[0]) || room == 0 then ([], codes)
    else
      var sub := Substitute(codes[0], table, caps, capitalize);
      if sub.None? then
        var (appended, rest) := Merge(codes[1..], room, table, caps, capitalize);
        (appended, [codes[0]] + rest)
      else
        var (appended, rest) := Merge(codes[1..], room - 1, table, caps, capitalize);
        ([sub.value] + appended, [sub.value as int as u32] + rest)
  }

  /** The code points before the first sentinel. */
  function Live(codes: seq<u32>): (r: seq<u32>)
    ensures |r| <= |codes|
  {
    if codes == [] || IsSentinel(codes[0]) then [] else [codes[0]] + Live(codes[1..])
  }

  /** The substitute bytes of the code points that have one, in order. */
  function Substitutes(codes: seq<u32>, table: map<u32, byte>, caps: bool, capitalize: Table): (r: seq<byte>)
    ensures |r| <= |codes|
  {
    if codes == [] then []
    else
      var sub := Substitute(codes[0], table, caps, capitalize);
      (if sub.Some? then [sub.value] else []) + Substitutes(codes[1..], table, caps, capitalize)
  }

  function Min(a: nat, b: nat): nat { if a < b then a else b }

  /**
    What the hook appends: the substitutes of the code points before the
    first NUL or newline, cut to the room left below `maxlen`. So it appends
    at most as many bytes as it reads code points and never more than the
    room; and when it appends nothing it leaves the code points untouched.
  */
  lemma MergeAppends(codes: seq<u32>, room: nat, table: map<u32, byte>, caps: bool, capitalize: Table)
    ensures var s := Substitutes(Live(codes), table, caps, capitalize);
            Merge(codes, room, table, caps, capitalize).0 == s[..Min(room, |s|)]
    ensures |Merge(codes, room, table, caps, capitalize).1| == |codes|
    ensures Merge(codes, room, table, caps, capitalize).0 == [] ==> Merge(codes, room, table, caps, capitalize).1 == codes
  {
    MergeTakesSubstitutes(codes, room, table, caps, capitalize);
    MergeKeepsSlots(codes, room, table, caps, capitalize);
  }

  lemma {:induction false} MergeTakesSubstitutes(codes: seq<u32>, room: nat, table: map<u32, byte>, caps: bool, capitalize: Table)
    ensures var s := Substitutes(Live(codes), table, caps, capitalize);
            Merge(codes, room, table, caps, capitalize).0 == s[..Min(room, |s|)]
    decreases |codes|
  {
    var s := Substitutes(Live(codes), table, caps, capitalize);
    if codes == [] || IsSentinel(codes[0]) {
      assert Live(codes) == [];
    } else if room > 0 {
      var live := Live(codes[1..]);
      var rest := Substitutes(live, table, caps, capitalize);
      var sub := Substitute(codes[0], table, caps, capitalize);
      SubstitutesOfLive(codes, table, caps, capitalize);
      if sub.None? {
        MergeTakesSubstitutes(codes[1..], room, table, caps, capitalize);
      } else {
        MergeTakesSubstitutes(codes[1..], room - 1, table, caps, capitalize);
        TakeOfCons(sub.value, rest, room);
      }
    }
  }

  lemma SubstitutesOfLive(codes: seq<u32>, table: map<u32, byte>, caps: bool, capitalize: Table)
    requires codes != [] && !IsSentinel(codes[0])
    ensures var sub := Substitute(codes[0], table, caps, capitalize);
            Substitutes(Live(codes), table, caps, capitalize)
            == (if sub.Some? then [sub.value] else []) + Substitutes(Live(codes[1..]), table, caps, capitalize)
  {
    var live := Live(codes[1..]);
    assert Live(codes) == [codes[0]] + live;
    assert ([codes[0]] + live)[1..] == live;
  }

  lemma TakeOfCons(b: byte, rest: seq<byte>, room: nat)
    requires room > 0
    ensures ([b] + rest)[..Min(room, |rest| + 1)] == [b] + rest[..Min(room - 1, |rest|)]
  {
  }

  lemma {:induction false} MergeKeepsSlots(codes: seq<u32>, room: nat, table: map<u32, byte>, caps: bool, capitalize: Table)
    ensures |Merge(codes, room, table, caps, capitalize).1| == |codes|
    ensures Merge(codes, room, table, caps, capitalize).0 == [] ==> Merge(codes, room, table, caps, capitalize).1 == codes
    decreases |codes|
  {
    if codes != [] && !IsSentinel(codes[0]) && room > 0 {
      var sub := Substitute(codes[0], table, caps, capitalize);
      if sub.None? {
        MergeKeepsSlots(codes[1..], room, table, caps, capitalize);
        assert [codes[0]] + codes[1..] == codes;
      } else {
        MergeKeepsSlots(codes[1..], room - 1, table, caps, capitalize);
      }
    }
  }

  /** The hook never grows the content past `maxlen`, nor by more than the eight slots it reads. */
  lemma MergeBounds(codes: seq<u32>, size: nat, maxlen: nat, table: map<u32, byte>, caps: bool, capitalize: Table)
    requires |codes| == PendingSlots
    ensures var appended := Merge(codes, Room(size, maxlen), table, caps, capitalize).0;
            |appended| <= PendingSlots && (size < maxlen ==> size + |appended| <= maxlen)
            && (size >= maxlen ==> appended == [])
  {
    MergeAppends(codes, Room(size, maxlen), table, caps, capitalize);
  }

  /**
    One turn of the loop on a code point that is not a sentinel, with room
    left: with `done` already in the content and `kept` already in the slots
    before it, what is left to append and to leave behind is the same after
    the turn writes the code point's substitute (or keeps it) as before.
  */
  lemma MergeTurn(done: seq<byte>, kept: seq<u32>, code: u32, rest: seq<u32>, room: nat,
                  table: map<u32, byte>, caps: bool, capitalize: Table)
    requires !IsSentinel(code) && room > 0
    ensures var sub := Substitute(code, table, caps, capitalize);
            var whole := Merge([code] + rest, room, table, caps, capitalize);
            if sub.None? then
              var tail := Merge(rest, room, table, caps, capitalize);
              done + whole.0 == done + tail.0 && kept + whole.1 == (kept + [code]) + tail.1
            else
              var tail := Merge(rest, room - 1, table, caps, capitalize);
              done + whole.0 == (done + [sub.value]) + tail.0
              && kept + whole.1 == (kept + [sub.value as int as u32]) + tail.1
  {
    assert ([code] + rest)[1..] == rest;
    var sub := Substitute(code, table, caps, capitalize);
    if sub.None? {
      var tail := Merge(rest, room, table, caps, capitalize);
      assert kept + ([code] + tail.1) == (kept + [code]) + tail.1;
    } else {
      var tail := Merge(rest, room - 1, table, caps, capitalize);
      assert done + ([sub.value] + tail.0) == (done + [sub.value]) + tail.0;
      assert kept + ([sub.value as int as u32] + tail.1) == (kept + [sub.value as int as u32]) + tail.1;
    }
  }

  /**
    One turn of the loop of `standardstringentry` over slot `i`: stops at a
    sentinel or when the content has reached `maxlen`; otherwise substitutes
    the code point when the table knows it, overwriting the slot and
    appending the byte while there is room. `total` and `slots` are what the
    content and the code points are to end as, by `Merge` over the slots
    from `i` on: a turn that stops has reached them, and one that goes on
    leaves exactly `Merge` over the slots from `i + 1` still to do.
  */
  method MergeSlot(content: CxxString, maxlen: nat, caps: bool, utf: array<u32>, i: nat,
                   table: map<u32, byte>, capitalize: Table, ghost total: seq<byte>, ghost slots: seq<u32>)
    returns (stop: bool, pushed: bool)
    requires content.Valid() && i < utf.Length
    requires total == content.Content() + Merge(utf[i..], Room(content.len, maxlen), table, caps, capitalize).0
    requires slots == utf[..i] + Merge(utf[i..], Room(content.len, maxlen), table, caps, capitalize).1
    modifies content, content.sso, content.heap, utf
    ensures content.Valid()
    ensures content.heap == old(content.heap) || fresh(content.heap)
    ensures content.len == if pushed then old(content.len) + 1 else old(content.len)
    ensures stop ==> !pushed && content.Content() == total && utf[..] == slots
    ensures !stop ==> total == content.Content() + Merge(utf[i + 1..], Room(content.len, maxlen), table, caps, capitalize).0
    ensures !stop ==> slots == utf[..i + 1] + Merge(utf[i + 1..], Room(content.len, maxlen), table, caps, capitalize).1
  {
    var code := utf[i];
    ghost var room := Room(content.len, maxlen);
    ghost var rest := utf[i + 1..];
    ghost var prefix := utf[..i];
    ghost var current := content.Content();
    assert utf[i..] == [code] + rest;
    if code == 0 || code == 10 || content.len >= maxlen {
      assert utf[..] == prefix + utf[i..];
      assert current + [] == current;
      return true, false;
    }
    MergeTurn(current, prefix, code, rest, room, table, caps, capitalize);
    if code > 122 && code in table {
      var entry := table[code];
      var b := if caps then capitalize[entry] else entry;
      var w: u32 := b as int as u32;
      utf[i] := w;
      content.PushBack(b);
      pushed := true;
      assert utf[i + 1..] == rest;
      assert utf[..i + 1] == prefix + [w];
    } else {
      assert utf[..i + 1] == prefix + [code];
      pushed := false;
    }
    stop := false;
  }

  /**
    The loop of `standardstringentry` over the eight slots: the content grows
    by exactly `Merge`'s bytes, the slots become `Merge`'s codes, and
    `anyValid` says whether anything was appended.
  */
  method MergePending(content: CxxString, maxlen: nat, caps: bool, utf: array<u32>,
                      table: map<u32, byte>, capitalize: Table)
    returns (anyValid: bool)
    requires content.Valid() && utf.Length == PendingSlots
    modifies content, content.sso, content.heap, utf
    ensures content.Valid()
    ensures content.Content() == old(content.Content()) + Merge(old(utf[..]), Room(old(content.len), maxlen), table, caps, capitalize).0
    ensures utf[..] == Merge(old(utf[..]), Room(old(content.len), maxlen), table, caps, capitalize).1
    ensures anyValid <==> content.len > old(content.len)
  {
    ghost var before := content.len;
    ghost var result := Merge(utf[..], Room(content.len, maxlen), table, caps, capitalize);
    ghost var total := content.Content() + result.0;
    anyValid := false;
    var i := 0;
    assert utf[..0] == [] && utf[0..] == utf[..];
    while i < PendingSlots
      invariant 0 <= i <= PendingSlots
      invariant content.Valid() && before <= content.len
      invariant content.heap == old(content.heap) || fresh(content.heap)
      invariant anyValid <==> content.len > before
      invariant total == content.Content() + Merge(utf[i..], Room(content.len, maxlen), table, caps, capitalize).0
      invariant result.1 == utf[..i] + Merge(utf[i..], Room(content.len, maxlen), table, caps, capitalize).1
    {
      var stop, pushed := MergeSlot(content, maxlen, caps, utf, i, table, capitalize, total, result.1);
      if stop {
        return;
      }
      anyValid := anyValid || pushed;
      i := i + 1;
    }
    assert utf[i..] == [] && utf[..i] == utf[..];
    assert content.Content() + [] == content.Content();
  }

  /**
    `standardstringentry`. `originalResult` is what the host's own routine
    would return; `calledOriginal` says whether it was called.
  */
  method StandardStringEntry(content: CxxString, maxlen: nat, flag: byte, utf: array<u32>,
                             table: map<u32, byte>, capitalize: Table, originalResult: bool)
    returns (handled: bool, calledOriginal: bool)
    requires content.Valid() && utf.Length == PendingSlots
    modifies content, content.sso, content.heap, utf
    ensures content.Valid()
    ensures content.Content() == old(content.Content())
              + Merge(old(utf[..]), Room(old(content.len), maxlen), table, (flag as bv8) & Caps != 0, capitalize).0
    ensures utf[..] == Merge(old(utf[..]), Room(old(content.len), maxlen), table, (flag as bv8) & Caps != 0, capitalize).1
    ensures calledOriginal <==> content.len == old(content.len)
    ensures handled == (!calledOriginal || originalResult)
  {
    var caps := (flag as bv8) & Caps != 0;
    var anyValid := MergePending(content, maxlen, caps, utf, table, capitalize);
    calledOriginal := !anyValid;
    handled := anyValid || originalResult;
  }
}
