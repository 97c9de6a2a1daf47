/**
  The search-group text hooks of src/hooks.rs, which rewrite a host string in
  place: the three table lookups (`simplify_string`, `upper_case_string`,
  `lower_case_string`) and the two bracket-aware capitalisers
  (`capitalize_string_words`, `capitalize_string_first_word`). The tables are
  the encoding tables loaded from the configuration, passed in.
*/
module Transforms {
  import opened Common
  import opened ForeignString

  const OpenBracket: byte := 91
  const CloseBracket: byte := 93
  const Space: byte := 32
  const Quote: byte := 34
  const Apostrophe: byte := 39
  const Comma: byte := 44

  /** Every byte of `c` replaced by its entry in `table`. */
  function Mapped(c: seq<byte>, table: Table): (r: seq<byte>)
    ensures |r| == |c|
    ensures forall i | 0 <= i < |c| :: r[i] == table[c[i]]
  {
    if c == [] then [] else [table[c[0]]] + Mapped(c[1..], table)
  }

  /**
    A table that maps each of its own results to itself (as a case or
    simplification table does) gives a rewrite that changes nothing when
    applied a second time.
  */
  lemma MappedIdempotent(c: seq<byte>, table: Table)
    requires forall b: byte :: table[table[b]] == table[b]
    ensures Mapped(Mapped(c, table), table) == Mapped(c, table)
  {
  }

  /**
    `simplify_string`, `upper_case_string` and `lower_case_string`: each byte
    of the content becomes its entry in `table`; the length, the pointer and
    the storage past the content stay as they were.
  */
  method ApplyTable(s: CxxString, table: Table)
    requires s.Valid()
    modifies s.Storage()
    ensures s.Valid()
    ensures s.Content() == Mapped(old(s.Content()), table)
    ensures s.Storage()[s.len..] == old(s.Storage()[s.len..])
  {
    var a := s.Storage();
    for i := 0 to s.len
      invariant forall k | 0 <= k < i :: a[k] == table[old(a[k])]
      invariant forall k | i <= k < a.Length :: a[k] == old(a[k])
    {
      a[i] := table[a[i]];
    }
  }

  /**
    Index `i` comes right after a word boundary: a space or a double quote, or
    an apostrophe that itself follows a space or a comma.
  */
  predicate FollowsBoundary(c: seq<byte>, i: nat)
    requires i < |c|
  {
    || (i > 0 && (c[i - 1] == Space || c[i - 1] == Quote))
    || (i >= 2 && c[i - 1] == Apostrophe && (c[i - 2] == Space || c[i - 2] == Comma))
  }

  /** A capitalised byte that ends the first-word scan: anything but a space or a double quote. */
  predicate StopsScan(b: byte) { b != Space && b != Quote }

  /**
    The scan both capitalisers run, from index `i` at bracket depth `depth`,
    over the content as it stands at that point: bytes already capitalised
    are what the boundary test sees. With `firstOnly` the scan ends at the
    first capitalised byte that is not a space or a double quote.
  */
  function CapitalizeFrom(c: seq<byte>, i: nat, depth: int, upper: Table, firstOnly: bool): (r: seq<byte>)
    requires i <= |c|
    ensures |r| == |c|
    ensures forall j | 0 <= j < i :: r[j] == c[j]
    decreases |c| - i
  {
    if i == |c| then c
    else if c[i] == OpenBracket then CapitalizeFrom(c, i + 1, depth + 1, upper, firstOnly)
    else if c[i] == CloseBracket then CapitalizeFrom(c, i + 1, depth - 1, upper, firstOnly)
    else if depth > 0 then CapitalizeFrom(c, i + 1, depth, upper, firstOnly)
    else if i == 0 || FollowsBoundary(c, i) then
      var d := c[i := upper[c[i]]];
      if firstOnly && StopsScan(d[i]) then d else CapitalizeFrom(d, i + 1, depth, upper, firstOnly)
    else CapitalizeFrom(c, i + 1, depth, upper, firstOnly)
  }

  /**
    The content after `capitalize_string_words`: the same length, every byte
    either kept or replaced by its uppercase mapping, and brackets kept.
  */
  function CapitalizedWords(c: seq<byte>, upper: Table): (r: seq<byte>)
    ensures |r| == |c|
    ensures forall i | 0 <= i < |c| :: r[i] == c[i] || r[i] == upper[c[i]]
    ensures forall i | 0 <= i < |c| && (c[i] == OpenBracket || c[i] == CloseBracket) :: r[i] == c[i]
  {
    var r := CapitalizeFrom(c, 0, 0, upper, false);
    assert Depth(c, 0) == 0;
    CapitalizeFromRule(c, c, 0, upper, false);
    assert forall i | 0 <= i < |c| :: r[i] == Expected(c, r, upper, false, i);
    r
  }

  /**
    The content after `capitalize_string_first_word`: the same length, every
    byte either kept or replaced by its uppercase mapping, and brackets kept.
  */
  function CapitalizedFirstWord(c: seq<byte>, upper: Table): (r: seq<byte>)
    ensures |r| == |c|
    ensures forall i | 0 <= i < |c| :: r[i] == c[i] || r[i] == upper[c[i]]
    ensures forall i | 0 <= i < |c| && (c[i] == OpenBracket || c[i] == CloseBracket) :: r[i] == c[i]
  {
    var r := CapitalizeFrom(c, 0, 0, upper, true);
    assert Depth(c, 0) == 0;
    CapitalizeFromRule(c, c, 0, upper, true);
    assert forall i | 0 <= i < |c| :: r[i] == Expected(c, r, upper, true, i);
    r
  }

  /** Brackets opened minus brackets closed in `c[..i]`. */
  function Depth(c: seq<byte>, i: nat): int
    requires i <= |c|
  {
    if i == 0 then 0
    else Depth(c, i - 1) + (if c[i - 1] == OpenBracket then 1 else if c[i - 1] == CloseBracket then -1 else 0)
  }

  /**
    Index `i` of the original content `c` is capitalised, given the final
    content `r` of the bytes before it: it is not a bracket, it lies outside
    every bracket pair, and it is the first byte or follows a word boundary.
  */
  predicate Hit(c: seq<byte>, r: seq<byte>, i: nat)
    requires i < |c| == |r|
  {
    c[i] != OpenBracket && c[i] != CloseBracket && Depth(c, i) <= 0 && (i == 0 || FollowsBoundary(r, i))
  }

  /** No index before `i` ended the first-word scan. */
  predicate NoStopBefore(c: seq<byte>, r: seq<byte>, upper: Table, i: nat)
    requires i <= |c| == |r|
  {
    forall j | 0 <= j < i :: !(Hit(c, r, j) && StopsScan(upper[c[j]]))
  }

  /** The byte the scan leaves at index `i`. */
  function Expected(c: seq<byte>, r: seq<byte>, upper: Table, firstOnly: bool, i: nat): byte
    requires i < |c| == |r|
  {
    if Hit(c, r, i) && (!firstOnly || NoStopBefore(c, r, upper, i)) then upper[c[i]] else c[i]
  }

  /** Every byte of `r` before `n` holds the value `Expected` names. */
  predicate Settled(c: seq<byte>, r: seq<byte>, upper: Table, firstOnly: bool, n: nat)
    requires n <= |c| == |r|
  {
    forall j | 0 <= j < n :: r[j] == Expected(c, r, upper, firstOnly, j)
  }

  lemma HitOnPrefix(c: seq<byte>, r1: seq<byte>, r2: seq<byte>, i: nat)
    requires i < |c| == |r1| == |r2| && r1[..i] == r2[..i]
    ensures Hit(c, r1, i) == Hit(c, r2, i)
  {
    if i > 0 { assert r1[i - 1] == r2[i - 1]; }
    if i > 1 { assert r1[i - 2] == r2[i - 2]; }
  }

  lemma ExpectedOnPrefix(c: seq<byte>, r1: seq<byte>, r2: seq<byte>, upper: Table, firstOnly: bool, i: nat)
    requires i < |c| == |r1| == |r2| && r1[..i] == r2[..i]
    ensures Hit(c, r1, i) == Hit(c, r2, i)
    ensures NoStopBefore(c, r1, upper, i) == NoStopBefore(c, r2, upper, i)
    ensures Expected(c, r1, upper, firstOnly, i) == Expected(c, r2, upper, firstOnly, i)
  {
    HitOnPrefix(c, r1, r2, i);
    forall j | 0 <= j < i ensures Hit(c, r1, j) == Hit(c, r2, j) {
      assert r1[..j] == r1[..i][..j] && r2[..j] == r2[..i][..j];
      HitOnPrefix(c, r1, r2, j);
    }
  }

  /**
    The scan from index `i`, when every byte before `i` already holds its
    final value and every byte from `i` on is still the original, ends with
    each byte as `Expected` says.
  */
  lemma {:induction false} CapitalizeFromRule(c: seq<byte>, cur: seq<byte>, i: nat, upper: Table, firstOnly: bool)
    requires |cur| == |c| && i <= |c|
    requires cur[i..] == c[i..]
    requires Settled(c, cur, upper, firstOnly, i)
    requires firstOnly ==> NoStopBefore(c, cur, upper, i)
    ensures Settled(c, CapitalizeFrom(cur, i, Depth(c, i), upper, firstOnly), upper, firstOnly, |c|)
    decreases |c| - i
  {
    if i < |c| {
      var next := cur[i := Expected(c, cur, upper, firstOnly, i)];
      ScanStep(c, cur, next, i, upper, firstOnly);
      var r := CapitalizeFrom(cur, i, Depth(c, i), upper, firstOnly);
      if firstOnly && Hit(c, cur, i) && StopsScan(upper[c[i]]) {
        assert r == next;
        StopRule(c, cur, next, i, upper);
        assert Settled(c, r, upper, firstOnly, |c|);
      } else {
        assert r == CapitalizeFrom(next, i + 1, Depth(c, i + 1), upper, firstOnly);
        StepKeeps(c, cur, next, i, upper, firstOnly);
        CapitalizeFromRule(c, next, i + 1, upper, firstOnly);
        assert Settled(c, r, upper, firstOnly, |c|);
      }
    } else {
      assert CapitalizeFrom(cur, i, Depth(c, i), upper, firstOnly) == cur;
    }
  }

  /**
    The scan at index `i` writes the byte `Expected` names there, then ends
    (first word found) or goes on from `i + 1` at the depth that index has.
  */
  lemma ScanStep(c: seq<byte>, cur: seq<byte>, next: seq<byte>, i: nat, upper: Table, firstOnly: bool)
    requires |cur| == |c| && i < |c| && cur[i..] == c[i..]
    requires firstOnly ==> NoStopBefore(c, cur, upper, i)
    requires next == cur[i := Expected(c, cur, upper, firstOnly, i)]
    ensures CapitalizeFrom(cur, i, Depth(c, i), upper, firstOnly)
            == if firstOnly && Hit(c, cur, i) && StopsScan(upper[c[i]]) then next
               else CapitalizeFrom(next, i + 1, Depth(c, i + 1), upper, firstOnly)
  {
    assert cur[i] == c[i];
    if !Hit(c, cur, i) {
      assert next == cur;
    }
  }

  /** The first-word scan ends at a hit whose mapping stops it: every byte then holds its `Expected` value. */
  lemma StopRule(c: seq<byte>, cur: seq<byte>, d: seq<byte>, i: nat, upper: Table)
    requires |cur| == |c| && i < |c| && cur[i..] == c[i..]
    requires Settled(c, cur, upper, true, i)
    requires NoStopBefore(c, cur, upper, i)
    requires Hit(c, cur, i) && StopsScan(upper[c[i]])
    requires d == cur[i := upper[c[i]]]
    ensures Settled(c, d, upper, true, |c|)
  {
    forall j | 0 <= j < |c| ensures d[j] == Expected(c, d, upper, true, j) {
      if j <= i {
        assert d[..j] == cur[..j];
        ExpectedOnPrefix(c, d, cur, upper, true, j);
      } else {
        assert d[..i] == cur[..i];
        ExpectedOnPrefix(c, d, cur, upper, true, i);
        assert Hit(c, d, i) && StopsScan(upper[c[i]]);
        assert !NoStopBefore(c, d, upper, j);
        assert d[j] == cur[j] == c[j];
      }
    }
  }

  /** One step of the scan at index `i` keeps the premises of `CapitalizeFromRule` for `i + 1`. */
  lemma StepKeeps(c: seq<byte>, cur: seq<byte>, next: seq<byte>, i: nat, upper: Table, firstOnly: bool)
    requires |cur| == |c| && i < |c| && cur[i..] == c[i..]
    requires Settled(c, cur, upper, firstOnly, i)
    requires firstOnly ==> NoStopBefore(c, cur, upper, i)
    requires next == cur[i := Expected(c, cur, upper, firstOnly, i)]
    requires firstOnly && Hit(c, cur, i) ==> !StopsScan(upper[c[i]])
    ensures |next| == |c| && next[i + 1..] == c[i + 1..]
    ensures Depth(c, i + 1) == Depth(c, i) + (if c[i] == OpenBracket then 1 else if c[i] == CloseBracket then -1 else 0)
    ensures Settled(c, next, upper, firstOnly, i + 1)
    ensures firstOnly ==> NoStopBefore(c, next, upper, i + 1)
  {
    forall j | 0 <= j < i + 1 ensures next[j] == Expected(c, next, upper, firstOnly, j) {
      assert next[..j] == cur[..j];
      ExpectedOnPrefix(c, next, cur, upper, firstOnly, j);
    }
    if firstOnly {
      assert next[..i] == cur[..i];
      ExpectedOnPrefix(c, next, cur, upper, firstOnly, i);
    }
  }

  /**
    What `capitalize_string_words` does to each byte: a bracket, or a byte
    inside a bracket pair, is left alone; any other byte is replaced by its
    uppercase mapping exactly when it is the first byte or follows a word
    boundary in the content as already rewritten.
  */
  lemma CapitalizedWordsRule(c: seq<byte>, upper: Table)
    ensures |CapitalizedWords(c, upper)| == |c|
    ensures forall i | 0 <= i < |c| ::
              CapitalizedWords(c, upper)[i]
              == if Hit(c, CapitalizedWords(c, upper), i) then upper[c[i]] else c[i]
    ensures forall i | 0 <= i < |c| && (c[i] == OpenBracket || c[i] == CloseBracket || Depth(c, i) > 0) ::
              CapitalizedWords(c, upper)[i] == c[i]
  {
    var r := CapitalizedWords(c, upper);
    assert Depth(c, 0) == 0;
    CapitalizeFromRule(c, c, 0, upper, false);
    forall i | 0 <= i < |c| ensures r[i] == if Hit(c, r, i) then upper[c[i]] else c[i] {
      assert r[i] == Expected(c, r, upper, false, i);
    }
  }

  /**
    `capitalize_string_first_word` follows the same rule up to and including
    the first capitalised byte that is not a space or a double quote; every
    byte after that one is left alone.
  */
  lemma CapitalizedFirstWordRule(c: seq<byte>, upper: Table)
    ensures |CapitalizedFirstWord(c, upper)| == |c|
    ensures forall i | 0 <= i < |c| ::
              CapitalizedFirstWord(c, upper)[i]
              == if Hit(c, CapitalizedFirstWord(c, upper), i) && NoStopBefore(c, CapitalizedFirstWord(c, upper), upper, i)
                 then upper[c[i]] else c[i]
    ensures forall i, j | 0 <= j < i < |c| && Hit(c, CapitalizedFirstWord(c, upper), j) && StopsScan(upper[c[j]]) ::
              CapitalizedFirstWord(c, upper)[i] == c[i]
  {
    var r := CapitalizedFirstWord(c, upper);
    assert Depth(c, 0) == 0;
    CapitalizeFromRule(c, c, 0, upper, true);
    forall i | 0 <= i < |c|
      ensures r[i] == if Hit(c, r, i) && NoStopBefore(c, r, upper, i) then upper[c[i]] else c[i]
    {
      assert r[i] == Expected(c, r, upper, true, i);
    }
  }

  /** The bytes the boundary test looks for. */
  predicate IsBoundaryByte(b: byte) { b == Space || b == Quote || b == Apostrophe || b == Comma }

  /**
    The uppercase table keeps the boundary bytes as they are and maps no
    other byte onto one of them, as a case table does.
  */
  predicate PunctuationStable(upper: Table)
  {
    forall b: byte :: (IsBoundaryByte(b) ==> upper[b] == b) && (IsBoundaryByte(upper[b]) ==> IsBoundaryByte(b))
  }

  /** Index `i` of `c` is a capitalisation candidate judged on `c` alone. */
  predicate Candidate(c: seq<byte>, i: nat)
    requires i < |c|
  {
    c[i] != OpenBracket && c[i] != CloseBracket && Depth(c, i) <= 0 && (i == 0 || FollowsBoundary(c, i))
  }

  /** When each byte is kept or upper-cased and the table is punctuation-stable, the boundary test sees the same bytes. */
  lemma BoundaryUnchanged(c: seq<byte>, r: seq<byte>, upper: Table, i: nat)
    requires PunctuationStable(upper)
    requires i < |c| == |r|
    requires forall k | 0 <= k < |c| :: r[k] == c[k] || r[k] == upper[c[k]]
    ensures Hit(c, r, i) == Candidate(c, i)
  {
    forall k | 0 <= k < i
      ensures (r[k] == Space <==> c[k] == Space) && (r[k] == Quote <==> c[k] == Quote)
      ensures (r[k] == Apostrophe <==> c[k] == Apostrophe) && (r[k] == Comma <==> c[k] == Comma)
    {
      assert IsBoundaryByte(upper[c[k]]) ==> IsBoundaryByte(c[k]);
      assert IsBoundaryByte(c[k]) ==> upper[c[k]] == c[k];
    }
  }

  /**
    With a punctuation-stable table, `capitalize_string_words` upper-cases
    exactly the candidates of the original content and nothing else.
  */
  lemma CapitalizedWordsOnOriginal(c: seq<byte>, upper: Table)
    requires PunctuationStable(upper)
    ensures |CapitalizedWords(c, upper)| == |c|
    ensures forall i | 0 <= i < |c| ::
              CapitalizedWords(c, upper)[i] == if Candidate(c, i) then upper[c[i]] else c[i]
  {
    var r := CapitalizedWords(c, upper);
    CapitalizedWordsRule(c, upper);
    forall i | 0 <= i < |c| ensures r[i] == if Candidate(c, i) then upper[c[i]] else c[i] {
      BoundaryUnchanged(c, r, upper, i);
    }
  }

  /**
    With a punctuation-stable table, `capitalize_string_first_word`
    upper-cases the candidates of the original content up to and including
    the first one whose uppercase form is not a space or a double quote.
  */
  lemma CapitalizedFirstWordOnOriginal(c: seq<byte>, upper: Table)
    requires PunctuationStable(upper)
    ensures |CapitalizedFirstWord(c, upper)| == |c|
    ensures forall i | 0 <= i < |c| ::
              CapitalizedFirstWord(c, upper)[i]
              == if Candidate(c, i) && (forall j | 0 <= j < i :: !(Candidate(c, j) && StopsScan(upper[c[j]])))
                 then upper[c[i]] else c[i]
  {
    var r := CapitalizedFirstWord(c, upper);
    CapitalizedFirstWordRule(c, upper);
    forall i | 0 <= i < |c|
      ensures r[i] == if Candidate(c, i) && (forall j | 0 <= j < i :: !(Candidate(c, j) && StopsScan(upper[c[j]])))
                      then upper[c[i]] else c[i]
    {
      BoundaryUnchanged(c, r, upper, i);
      forall j | 0 <= j < i ensures Hit(c, r, j) == Candidate(c, j) {
        BoundaryUnchanged(c, r, upper, j);
      }
    }
  }

  /** `capitalize_string_words`, in place on the host string. */
  method CapitalizeWords(s: CxxString, upper: Table)
    requires s.Valid()
    modifies s.Storage()
    ensures s.Valid()
    ensures s.Content() == CapitalizedWords(old(s.Content()), upper)
    ensures s.Storage()[s.len..] == old(s.Storage()[s.len..])
  {
    var a, n := s.Storage(), s.len;
    ghost var original := a[..n];
    var bracketCount := 0;
    for i := 0 to n
      invariant CapitalizeFrom(a[..n], i, bracketCount, upper, false) == CapitalizedWords(original, upper)
      invariant a[n..] == old(a[n..])
    {
      if a[i] == OpenBracket {
        bracketCount := bracketCount + 1;
        continue;
      }
      if a[i] == CloseBracket {
        bracketCount := bracketCount - 1;
        continue;
      }
      if bracketCount > 0 {
        continue;
      }
      var conf := false;
      if || (i > 0 && (a[i - 1] == Space || a[i - 1] == Quote))
         || (i >= 2 && a[i - 1] == Apostrophe && (a[i - 2] == Space || a[i - 2] == Comma))
      {
        conf := true;
      }
      if i == 0 || conf {
        ghost var before := a[..n];
        a[i] := upper[a[i]];
        assert a[..n] == before[i := upper[before[i]]];
      }
    }
  }

  /** `capitalize_string_first_word`, in place on the host string; returns at the end of the first word. */
  method CapitalizeFirstWord(s: CxxString, upper: Table)
    requires s.Valid()
    modifies s.Storage()
    ensures s.Valid()
    ensures s.Content() == CapitalizedFirstWord(old(s.Content()), upper)
    ensures s.Storage()[s.len..] == old(s.Storage()[s.len..])
  {
    var a, n := s.Storage(), s.len;
    ghost var original := a[..n];
    var bracketCount := 0;
    for i := 0 to n
      invariant CapitalizeFrom(a[..n], i, bracketCount, upper, true) == CapitalizedFirstWord(original, upper)
      invariant a[n..] == old(a[n..])
    {
      if a[i] == OpenBracket {
        bracketCount := bracketCount + 1;
        continue;
      }
      if a[i] == CloseBracket {
        bracketCount := bracketCount - 1;
        continue;
      }
      if bracketCount > 0 {
        continue;
      }
      var conf := false;
      if || (i > 0 && (a[i - 1] == Space || a[i - 1] == Quote))
         || (i >= 2 && a[i - 1] == Apostrophe && (a[i - 2] == Space || a[i - 2] == Comma))
      {
        conf := true;
      }
      if i == 0 || conf {
        ghost var before := a[..n];
        a[i] := upper[a[i]];
        assert a[..n] == before[i := upper[before[i]]];
        if a[i] != Space && a[i] != Quote {
          return;
        }
      }
    }
  }
}
