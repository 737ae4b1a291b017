/** The splitting loop of `send_telegram_message` in send_updates.py: a
    message longer than `MaxLength` characters is cut at the last newline
    before that length (or at that length when there is none), and the
    newlines that start the remainder are dropped. */
module Delivery {
  import opened Text
  import opened Records
  import opened Diff
  import opened Report

  /** `MAX_LENGTH`. */
  const MaxLength: nat := 4000

  /** `text.rfind("\n", 0, end)`: the position of the last newline before
      `end`, or -1. */
  function LastNewline(text: string, end: nat): (r: int)
    requires end <= |text|
    ensures -1 <= r < end
    ensures r >= 0 ==> text[r] == '\n'
    ensures forall i :: r < i < end ==> text[i] != '\n'
    decreases end
  {
    if end == 0 then -1
    else if text[end - 1] == '\n' then end - 1
    else LastNewline(text, end - 1)
  }

  predicate OnlyNewlines(t: string) {
    forall i :: 0 <= i < |t| ==> t[i] == '\n'
  }

  /** `s.lstrip("\n")`: the input with its leading newlines removed. */
  function DropNewlines(s: string): (r: string)
    ensures |r| <= |s|
    ensures s != [] && s[0] == '\n' ==> |r| < |s|
    ensures r == [] || r[0] != '\n'
    decreases |s|
  {
    if s != [] && s[0] == '\n' then DropNewlines(s[1..]) else s
  }

  /** What `lstrip` keeps is a suffix of its input, and what it removes is
      newlines only. */
  lemma {:induction false} DropNewlinesSuffix(s: string)
    ensures var r := DropNewlines(s);
      r == s[|s| - |r|..] && OnlyNewlines(s[..|s| - |r|])
    decreases |s|
  {
    if s != [] && s[0] == '\n' {
      var r := DropNewlines(s[1..]);
      DropNewlinesSuffix(s[1..]);
      assert s[..|s| - |r|] == [s[0]] + s[1..][..|s| - 1 - |r|];
    }
  }

  /** Where a text longer than `MaxLength` is cut: at its last newline
      before `MaxLength`, or at `MaxLength` when it has none there. */
  function SplitPos(text: string): (p: nat)
    requires |text| > MaxLength
    ensures p <= MaxLength
    ensures p < MaxLength ==> text[p] == '\n' && forall i :: p < i < MaxLength ==> text[i] != '\n'
    ensures p == MaxLength <==> forall i :: 0 <= i < MaxLength ==> text[i] != '\n'
  {
    var i := LastNewline(text, MaxLength);
    if i == -1 then MaxLength else i
  }

  /** What is left once the chunk `text[..SplitPos(text)]` is taken off. */
  function Remainder(text: string): (r: string)
    requires |text| > MaxLength
    ensures |r| < |text|
  {
    DropNewlines(text[SplitPos(text)..])
  }

  /** The chunks the loop produces, first to last. */
  function Chunks(text: string): seq<string>
    decreases |text|
  {
    if text == [] then []
    else if |text| <= MaxLength then [text]
    else [text[..SplitPos(text)]] + Chunks(Remainder(text))
  }

  lemma ChunksShort(t: string)
    requires 0 < |t| <= MaxLength
    ensures Chunks(t) == [t] && Chunks([]) == []
  {
  }

  lemma ChunksLong(t: string)
    requires |t| > MaxLength
    ensures Chunks(t) == [t[..SplitPos(t)]] + Chunks(Remainder(t))
  {
  }

  /** One cut of a long text: `rfind`, the fallback to `MAX_LENGTH`, the
      chunk before the cut and the remainder with its leading newlines
      dropped. */
  method Cut(t: string) returns (chunk: string, rest: string)
    requires |t| > MaxLength
    ensures chunk == t[..SplitPos(t)] && rest == Remainder(t)
  {
    var splitPos := LastNewline(t, MaxLength);
    if splitPos == -1 {
      splitPos := MaxLength;
    }
    chunk := t[..splitPos];
    rest := DropNewlines(t[splitPos..]);
  }

  /** The loop of `send_telegram_message` that fills `chunks`. */
  method SplitMessage(text: string) returns (chunks: seq<string>)
    ensures chunks == Chunks(text)
  {
    chunks := [];
    var t := text;
    while t != []
      invariant chunks + Chunks(t) == Chunks(text)
      decreases |t|
    {
      if |t| <= MaxLength {
        ChunksShort(t);
        chunks := chunks + [t];
        t := [];
      } else {
        var chunk, rest := Cut(t);
        ChunksLong(t);
        AppendAssoc(chunks, [chunk], Chunks(rest));
        chunks := chunks + [chunk];
        t := rest;
      }
    }
  }

  // ---------------------------------------------------------------------
  // properties

  /** No chunk is longer than `MaxLength`, and only the empty text gives
      no chunk at all. */
  lemma {:induction false} ChunksBounded(text: string)
    ensures Chunks(text) == [] <==> text == []
    ensures forall k :: 0 <= k < |Chunks(text)| ==> |Chunks(text)[k]| <= MaxLength
    decreases |text|
  {
    if |text| > MaxLength {
      ChunksBounded(Remainder(text));
    }
  }

  /** A text that fits is sent as it is, in one piece. */
  lemma ShortTextOneChunk(text: string)
    requires 0 < |text| <= MaxLength
    ensures Chunks(text) == [text]
  {
  }

  /** A long text's first chunk ends just before its last newline under
      `MaxLength`; the rest continues after the newlines that follow. */
  lemma LongTextCut(text: string)
    requires |text| > MaxLength
    ensures var p := SplitPos(text);
      Chunks(text)[0] == text[..p]
      && Chunks(text)[1..] == Chunks(DropNewlines(text[p..]))
  {
  }

  /** The text without its newlines. */
  function Visible(s: string): (r: string)
    ensures |r| <= |s|
    decreases |s|
  {
    if s == [] then []
    else Visible(s[..|s| - 1]) + (if s[|s| - 1] == '\n' then [] else [s[|s| - 1]])
  }

  lemma {:induction false} VisibleAppend(a: string, b: string)
    ensures Visible(a + b) == Visible(a) + Visible(b)
    decreases |b|
  {
    if b == [] {
      assert a + b == a;
    } else {
      assert (a + b)[..|a + b| - 1] == a + b[..|b| - 1];
      VisibleAppend(a, b[..|b| - 1]);
    }
  }

  lemma VisibleSlices(s: string, i: nat)
    requires i <= |s|
    ensures Visible(s) == Visible(s[..i]) + Visible(s[i..])
  {
    assert s == s[..i] + s[i..];
    VisibleAppend(s[..i], s[i..]);
  }

  lemma VisibleNewline(s: string)
    requires |s| == 1 && s[0] == '\n'
    ensures Visible(s) == []
  {
    assert s[..0] == [];
  }

  /** Leading newlines are not visible. */
  lemma {:induction false} VisibleDropNewlines(s: string)
    ensures Visible(DropNewlines(s)) == Visible(s)
    decreases |s|
  {
    if s != [] && s[0] == '\n' {
      VisibleDropNewlines(s[1..]);
      VisibleSlices(s, 1);
      VisibleNewline(s[..1]);
    }
  }

  /** The cut loses nothing but newlines: the first chunk, then the
      remainder, hold all the other characters of the text, in order. */
  lemma CutKeepsText(text: string)
    requires |text| > MaxLength
    ensures Visible(text) == Visible(text[..SplitPos(text)]) + Visible(Remainder(text))
  {
    VisibleSlices(text, SplitPos(text));
    VisibleDropNewlines(text[SplitPos(text)..]);
  }

  /** The chunks, put back together, hold every character of the text other
      than a newline, in the original order: only newlines are lost. */
  lemma {:induction false} ChunksKeepText(text: string)
    ensures Visible(Flatten(Chunks(text))) == Visible(text)
    decreases |text|
  {
    if text == [] {
    } else if |text| <= MaxLength {
      FlattenSingle(text);
    } else {
      var c := text[..SplitPos(text)];
      var r := Remainder(text);
      ChunksKeepText(r);
      FlattenAppend([c], Chunks(r));
      FlattenSingle(c);
      VisibleAppend(c, Flatten(Chunks(r)));
      CutKeepsText(text);
    }
  }

  /** A text that does not begin with a newline gives no empty chunk (every
      remainder starts with something other than a newline). */
  lemma {:induction false} ChunksNonEmpty(text: string)
    requires text == [] || text[0] != '\n'
    ensures forall k :: 0 <= k < |Chunks(text)| ==> Chunks(text)[k] != []
    decreases |text|
  {
    if |text| > MaxLength {
      ChunksNonEmpty(Remainder(text));
    }
  }

  /** A long text that begins with a newline is sent with an empty first
      chunk: `rfind` finds that newline at position 0 when no other newline
      precedes `MaxLength`. */
  lemma LeadingNewlineEmptyChunk(text: string)
    requires |text| > MaxLength && text[0] == '\n'
    requires forall i :: 0 < i < MaxLength ==> text[i] != '\n'
    ensures Chunks(text)[0] == []
  {
  }

  /** The messages of the report start with their department header, so
      none of them is sent with an empty chunk. */
  lemma ReportChunksNonEmpty(added: Grouping<Record>, removed: Grouping<Record>, updated: Grouping<UpdateEntry>, i: nat)
    requires Printable(added, removed, updated)
    requires i < |Messages(added, removed, updated)|
    ensures var cs := Chunks(Messages(added, removed, updated)[i]);
      forall k :: 0 <= k < |cs| ==> cs[k] != []
  {
    var m := Messages(added, removed, updated)[i];
    MessagesPerDepartment(added, removed, updated);
    var ds := SortedOf(DeptNames(added, removed, updated));
    assert Header(ds[i]) <= m;
    assert m[0] == Header(ds[i])[0] == DeptMark[0];
    ChunksNonEmpty(m);
  }
}
