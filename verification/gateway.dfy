/**
  The translation gateway of src/hooks.rs: `enqueue_for_translation`, which
  records each distinct trimmed text once per process run in the
  pending-translation file, and `translate_bytes`, which decodes the host's
  bytes, enqueues them and (today) never returns a translation.
*/
module Gateway {
  import opened Common
  import opened Utf8
  import opened Text

  /**
    The process-lifetime state behind `enqueue_for_translation`: the texts seen
    so far in this run (`SEEN_PENDING`) and the records of the pending file,
    one per `writeln!` (a record holding a newline spans several lines of the
    file).
  */
  datatype Session = Session(seen: set<string>, pending: seq<string>)

  /** A new process: nothing seen, nothing written. */
  const Start := Session({}, [])

  predicate Distinct(s: seq<string>) { forall i, j | 0 <= i < j < |s| :: s[i] != s[j] }

  /** What every session reachable from `Start` satisfies. */
  predicate Consistent(st: Session)
  {
    && Distinct(st.pending)
    && (forall i | 0 <= i < |st.pending| :: st.pending[i] in st.seen)
    && (forall t | t in st.seen :: t != [] && IsTrimmed(t))
  }

  /**
    One call of `enqueue_for_translation`. `writable` is whether the pending
    file opens for appending and the write of the record succeeds (the write's
    own error is discarded); the text is marked as seen either way. A
    non-blank trimmed text joins the seen set, and at most one record is
    appended: the trimmed text, exactly when it is new and `writable` holds.
  */
  function Enqueued(st: Session, original: string, writable: bool): (r: Session)
    ensures var t := Trim(original);
            && r.seen == (if t == [] then st.seen else st.seen + {t})
            && (r.pending == st.pending || r.pending == st.pending + [t])
            && (r.pending != st.pending <==> writable && t != [] && t !in st.seen)
  {
    Remember(st, Trim(original), writable)
  }

  /** `enqueue_for_translation` once the text has been trimmed. */
  function Remember(st: Session, text: string, writable: bool): (r: Session)
    ensures r.seen == (if text == [] then st.seen else st.seen + {text})
    ensures r.pending == st.pending || r.pending == st.pending + [text]
    ensures r.pending != st.pending <==> writable && text != [] && text !in st.seen
  {
    if text == [] then st
    else if text in st.seen then
      assert st.seen + {text} == st.seen;
      st
    else Session(st.seen + {text}, if writable then st.pending + [text] else st.pending)
  }

  /**
    What `translate_bytes` does to the session: it enqueues the decoded text
    when there is one, and leaves the session alone otherwise: bytes that are
    not UTF-8 or are all zero change nothing, and any record appended is the
    trimmed decoded text.
  */
  function Translated(st: Session, original: seq<byte>, writable: bool): (r: Session)
    ensures Decode(original).None? || AllZero(original) ==> r == st
    ensures st.seen <= r.seen
    ensures r.pending == st.pending
            || (TextForTranslation(original).Some? && r.pending == st.pending + [Trim(TextForTranslation(original).value)])
  {
    match TextForTranslation(original)
    case None => st
    case Some(text) => Enqueued(st, text, writable)
  }

  /**
    Host bytes that are the UTF-8 encoding of a text not ending in NUL reach
    `enqueue_for_translation` as exactly that text.
  */
  lemma TranslatedEncoding(st: Session, text: string, writable: bool)
    requires text != [] && text[|text| - 1] != '\0'
    ensures Translated(st, Encode(text), writable) == Enqueued(st, text, writable)
  {
    DecodeEncode(text);
    assert TrimTrailingNuls(text) == text;
    assert TextForTranslation(Encode(text)) == Some(text);
  }

  /** A sequence of enqueue calls, each with the text and whether its record could be written. */
  function Run(st: Session, calls: seq<(string, bool)>): Session
    decreases |calls|
  {
    if calls == [] then st else Run(Enqueued(st, calls[0].0, calls[0].1), calls[1..])
  }

  lemma EnqueueKeepsConsistent(st: Session, original: string, writable: bool)
    requires Consistent(st)
    ensures Consistent(Enqueued(st, original, writable))
  {
    var text := Trim(original);
    var r := Enqueued(st, original, writable);
    if text == [] || text in st.seen {
      assert r == st;
    } else {
      assert r.seen == st.seen + {text} && text != [] && IsTrimmed(text);
      if writable {
        assert r.pending == st.pending + [text];
        forall i, j | 0 <= i < j < |r.pending| ensures r.pending[i] != r.pending[j] {
          if j == |st.pending| {
            assert r.pending[i] == st.pending[i] && st.pending[i] in st.seen;
          }
        }
      } else {
        assert r.pending == st.pending;
      }
    }
  }

  /** Blank text (empty or whitespace only) writes nothing and is not remembered. */
  lemma BlankWritesNothing(st: Session, original: string, writable: bool)
    requires AllWhitespace(original)
    ensures Enqueued(st, original, writable) == st
  {
  }

  /**
    Once a text has been offered, offering it again, or any text with the same
    trimmed form, changes nothing, whether or not the first write succeeded.
  */
  lemma RepeatWritesNothing(st: Session, first: string, again: string, w1: bool, w2: bool)
    requires Trim(again) == Trim(first)
    ensures Enqueued(Enqueued(st, first, w1), again, w2) == Enqueued(st, first, w1)
  {
  }

  /** The first time a non-blank trimmed text is offered it is marked seen, and written when the write succeeds. */
  lemma FirstSightWrites(st: Session, original: string, writable: bool)
    requires !AllWhitespace(original) && Trim(original) !in st.seen
    ensures Enqueued(st, original, writable).seen == st.seen + {Trim(original)}
    ensures Enqueued(st, original, writable).pending
         == if writable then st.pending + [Trim(original)] else st.pending
  {
  }

  /** The trimmed forms of the texts offered by a sequence of calls. */
  function Offered(calls: seq<(string, bool)>): set<string>
    decreases |calls|
  {
    if calls == [] then {} else {Trim(calls[0].0)} + Offered(calls[1..])
  }

  /**
    Over any run from a consistent session (so from a new process), the
    pending file holds each text in at most one record, records already
    written stay, and every new record is the trimmed form of some text that
    was offered.
  */
  lemma {:induction false} RunWritesEachTextOnce(st: Session, calls: seq<(string, bool)>)
    requires Consistent(st)
    ensures Consistent(Run(st, calls))
    ensures st.pending <= Run(st, calls).pending
    ensures forall i | |st.pending| <= i < |Run(st, calls).pending| :: Run(st, calls).pending[i] in Offered(calls)
    decreases |calls|
  {
    if calls != [] {
      var next := Enqueued(st, calls[0].0, calls[0].1);
      EnqueueKeepsConsistent(st, calls[0].0, calls[0].1);
      RunWritesEachTextOnce(next, calls[1..]);
    }
  }

  /** A text that was marked seen but whose write failed is never written later in the same run. */
  lemma {:induction false} LostWriteIsNeverRetried(st: Session, calls: seq<(string, bool)>, text: string)
    requires text in st.seen && text !in st.pending
    ensures text !in Run(st, calls).pending
    decreases |calls|
  {
    if calls != [] {
      LostWriteIsNeverRetried(Enqueued(st, calls[0].0, calls[0].1), calls[1..], text);
    }
  }

  /** The `SEEN_PENDING` set (behind its mutex) and the pending-translation file. */
  class TranslationGateway {
    var seen: set<string>
    ghost var pending: seq<string>

    ghost function State(): Session
      reads this
    {
      Session(seen, pending)
    }

    ghost predicate Valid()
      reads this
    {
      Consistent(State())
    }

    constructor ()
      ensures Valid() && State() == Start
    {
      seen := {};
      pending := [];
    }

    /**
      `enqueue_for_translation`: the check-and-insert on the seen set is one
      step (the source does it under a lock); the append to the file happens
      only when the text was not seen before and the write succeeds.
    */
    method Enqueue(original: string, writable: bool)
      requires Valid()
      modifies this
      ensures Valid()
      ensures State() == Enqueued(old(State()), original, writable)
    {
      EnqueueKeepsConsistent(State(), original, writable);
      var text := Trim(original);
      if text == [] {
        return;
      }
      if text in seen {
        return;
      }
      seen := seen + {text};
      if writable {
        pending := pending + [text];
      }
    }

    /**
      `translate_bytes`: decodes the bytes, strips trailing NULs, enqueues what
      is left when it is not empty, and returns no translation on every path.
    */
    method TranslateBytes(original: seq<byte>, writable: bool) returns (r: Option<seq<byte>>)
      requires Valid()
      modifies this
      ensures Valid()
      ensures r == None
      ensures State() == Translated(old(State()), original, writable)
    {
      var text := TextForTranslation(original);
      match text {
        case None =>
          return None;
        case Some(t) =>
          Enqueue(t, writable);
      }
      r := None;
    }
  }
}
