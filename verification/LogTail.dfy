/**
Following a log: the file so far is read as a snapshot, in batches of lines, and everything
written from then on arrives line by line, however the writes were cut.
*/
module LogTail {
  import opened Bytes

  const LF: byte := 10
  const CR: byte := 13
  const BATCH := 100

  type Line = seq<byte>

  function TrimSuffix(line: Line, b: byte): Line {
    if line != [] && line[|line| - 1] == b then line[..|line| - 1] else line
  }

  function TrimLineBreak(line: Line): Line {
    TrimSuffix(TrimSuffix(line, LF), CR)
  }

  /** The complete lines of a text. */
  ghost function Lines(s: seq<byte>): seq<Line> {
    if s == [] then []
    else
      var n := |s| - 1;
      if s[n] == LF then Lines(s[..n]) + [TrimLineBreak(Rest(s[..n]))] else Lines(s[..n])
  }

  /** What comes after the last complete line. */
  ghost function Rest(s: seq<byte>): seq<byte> {
    if s == [] || s[|s| - 1] == LF then [] else Rest(s[..|s| - 1]) + [s[|s| - 1]]
  }

  lemma {:induction false} NoBreakNoLines(s: seq<byte>)
    requires LF !in s
    ensures Lines(s) == [] && Rest(s) == s
  {
    if s == [] {
    } else {
      var n := |s| - 1;
      NoBreakNoLines(s[..n]);
      assert s == s[..n] + [s[n]];
    }
  }

  lemma {:induction false} RestHasNoBreak(s: seq<byte>)
    ensures LF !in Rest(s)
  {
    if s == [] {
    } else {
      RestHasNoBreak(s[..|s| - 1]);
    }
  }

  lemma LinesSnoc(s: seq<byte>, x: byte)
    ensures Lines(s + [x]) == if x == LF then Lines(s) + [TrimLineBreak(Rest(s))] else Lines(s)
    ensures Rest(s + [x]) == if x == LF then [] else Rest(s) + [x]
  {
    assert (s + [x])[..|s|] == s;
  }

  /** Lines can be read off piece by piece if the unfinished one is carried over. */
  lemma {:induction false} LinesJoin(a: seq<byte>, b: seq<byte>)
    ensures Lines(a + b) == Lines(a) + Lines(Rest(a) + b)
    ensures Rest(a + b) == Rest(Rest(a) + b)
    decreases |b|
  {
    if b == [] {
      JoinNothing(a, b);
    } else {
      var init, x := b[..|b| - 1], b[|b| - 1];
      assert init + [x] == b;
      LinesJoin(a, init);
      JoinSnoc(a, Rest(a), init, x);
    }
  }

  lemma JoinNothing(a: seq<byte>, b: seq<byte>)
    requires b == []
    ensures Lines(a + b) == Lines(a) + Lines(Rest(a) + b) && Rest(a + b) == Rest(Rest(a) + b)
  {
    var r := Rest(a);
    assert a + b == a && r + b == r;
    RestHasNoBreak(a);
    NoBreakNoLines(r);
  }

  lemma JoinSnoc(a: seq<byte>, r: seq<byte>, b: seq<byte>, x: byte)
    requires Lines(a + b) == Lines(a) + Lines(r + b) && Rest(a + b) == Rest(r + b)
    ensures Lines(a + (b + [x])) == Lines(a) + Lines(r + (b + [x]))
    ensures Rest(a + (b + [x])) == Rest(r + (b + [x]))
  {
    Assoc(a, b, [x]);
    Assoc(r, b, [x]);
    LinesSnoc(a + b, x);
    LinesSnoc(r + b, x);
    Assoc(Lines(a), Lines(r + b), [TrimLineBreak(Rest(r + b))]);
  }

  lemma Assoc<T>(a: seq<T>, b: seq<T>, c: seq<T>)
    ensures a + (b + c) == (a + b) + c
  {
  }

  /** One line and a text behind it. */
  lemma LinesCut(head: seq<byte>, tail: seq<byte>)
    requires LF !in head
    ensures Lines(head + [LF] + tail) == [TrimLineBreak(head)] + Lines(tail)
    ensures Rest(head + [LF] + tail) == Rest(tail)
  {
    var a := head + [LF];
    assert a[..|head|] == head;
    NoBreakNoLines(head);
    LinesJoin(a, tail);
    assert [] + tail == tail;
  }

  // ---- What the lines of a text are ----------------------------------------------------

  /** Lines as they are written: each is followed by CR LF or by LF. */
  ghost function TextOf(lines: seq<Line>, crlf: seq<bool>): seq<byte>
    requires |lines| == |crlf|
  {
    if lines == [] then []
    else
      var n := |lines| - 1;
      TextOf(lines[..n], crlf[..n]) + (lines[n] + if crlf[n] then [CR, LF] else [LF])
  }

  predicate EndsInCR(s: seq<byte>) {
    s != [] && s[|s| - 1] == CR
  }

  /** The text is these lines and then the rest; a CR before a line feed belongs to the line break. */
  ghost predicate Spells(s: seq<byte>, lines: seq<Line>, crlf: seq<bool>, rest: seq<byte>) {
    && |crlf| == |lines| && s == TextOf(lines, crlf) + rest && LF !in rest
    && (forall i :: 0 <= i < |lines| ==> LF !in lines[i] && (EndsInCR(lines[i]) ==> crlf[i]))
  }

  lemma TextOfSnoc(lines: seq<Line>, crlf: seq<bool>, line: Line, cr: bool)
    requires |lines| == |crlf|
    ensures TextOf(lines + [line], crlf + [cr]) == TextOf(lines, crlf) + (line + if cr then [CR, LF] else [LF])
  {
    assert (lines + [line])[..|lines|] == lines && (crlf + [cr])[..|lines|] == crlf;
  }

  ghost predicate Spelled(s: seq<byte>, lines: seq<Line>, rest: seq<byte>) {
    exists crlf :: Spells(s, lines, crlf, rest)
  }

  lemma TrimmedLine(raw: seq<byte>)
    requires LF !in raw
    ensures var line := TrimLineBreak(raw);
            && LF !in line && (EndsInCR(line) ==> EndsInCR(raw))
            && raw == line + if EndsInCR(raw) then [CR] else []
  {
    if EndsInCR(raw) {
      assert raw == raw[..|raw| - 1] + [CR];
    }
  }

  lemma SpellsLine(s: seq<byte>, lines: seq<Line>, crlf: seq<bool>, raw: seq<byte>)
    requires Spells(s, lines, crlf, raw)
    ensures Spells(s + [LF], lines + [TrimLineBreak(raw)], crlf + [EndsInCR(raw)], [])
  {
    var line, cr := TrimLineBreak(raw), EndsInCR(raw);
    TrimmedLine(raw);
    TextOfSnoc(lines, crlf, line, cr);
    assert raw + [LF] == line + if cr then [CR, LF] else [LF];
    Assoc(TextOf(lines, crlf), raw, [LF]);
    assert s + [LF] == TextOf(lines + [line], crlf + [cr]) + [];
  }

  lemma SpellsByte(s: seq<byte>, lines: seq<Line>, crlf: seq<bool>, rest: seq<byte>, x: byte)
    requires Spells(s, lines, crlf, rest) && x != LF
    ensures Spells(s + [x], lines, crlf, rest + [x])
  {
    Assoc(TextOf(lines, crlf), rest, [x]);
  }

  /** Every text is spelled by its lines and its rest. */
  lemma {:induction false} LinesSpell(s: seq<byte>)
    ensures Spelled(s, Lines(s), Rest(s))
  {
    if s == [] {
      assert Spells(s, [], [], []);
    } else {
      var t, x := s[..|s| - 1], s[|s| - 1];
      assert s == t + [x];
      LinesSpell(t);
      SpelledOn(t, Lines(t), Rest(t), x);
    }
  }

  lemma SpelledOn(t: seq<byte>, lines: seq<Line>, rest: seq<byte>, x: byte)
    requires Spelled(t, lines, rest)
    ensures if x == LF then Spelled(t + [x], lines + [TrimLineBreak(rest)], []) else Spelled(t + [x], lines, rest + [x])
  {
    var crlf :| Spells(t, lines, crlf, rest);
    if x == LF {
      SpellsLine(t, lines, crlf, rest);
    } else {
      SpellsByte(t, lines, crlf, rest, x);
    }
  }

  lemma LineBehind(before: seq<byte>, line: Line, cr: bool, rest: seq<byte>)
    requires Rest(before) == [] && LF !in line && (EndsInCR(line) ==> cr) && LF !in rest
    ensures var s := before + (line + if cr then [CR, LF] else [LF]) + rest;
            Lines(s) == Lines(before) + [line] && Rest(s) == rest
  {
    var raw := line + if cr then [CR] else [];
    var tail := raw + [LF] + rest;
    TrimmedBack(line, cr);
    BreakBehind(before, line, cr, rest);
    LinesJoin(before, tail);
    assert [] + tail == tail;
    LinesCut(raw, rest);
    NoBreakNoLines(rest);
  }

  lemma TrimmedBack(line: Line, cr: bool)
    requires LF !in line && (EndsInCR(line) ==> cr)
    ensures TrimLineBreak(line + if cr then [CR] else []) == line
  {
    var raw := line + if cr then [CR] else [];
    assert cr ==> raw[..|raw| - 1] == line;
  }

  lemma BreakBehind(before: seq<byte>, line: Line, cr: bool, rest: seq<byte>)
    ensures before + (line + if cr then [CR, LF] else [LF]) + rest
            == before + ((line + if cr then [CR] else []) + [LF] + rest)
  {
    assert line + (if cr then [CR, LF] else [LF]) == (line + if cr then [CR] else []) + [LF];
  }

  /** And no other lines and rest spell it. */
  lemma {:induction false} SpelledLines(s: seq<byte>, lines: seq<Line>, crlf: seq<bool>, rest: seq<byte>)
    requires Spells(s, lines, crlf, rest)
    ensures Lines(s) == lines && Rest(s) == rest
    decreases |lines|
  {
    if lines == [] {
      assert s == rest;
      NoBreakNoLines(rest);
    } else {
      var n := |lines| - 1;
      var before := TextOf(lines[..n], crlf[..n]);
      assert Spells(before, lines[..n], crlf[..n], []);
      SpelledLines(before, lines[..n], crlf[..n], []);
      LineBehind(before, lines[n], crlf[n], rest);
      assert lines == lines[..n] + [lines[n]];
    }
  }

  // ---- Publishing --------------------------------------------------------------------

  ghost function Concat<T>(chunks: seq<seq<T>>): seq<T> {
    if chunks == [] then [] else Concat(chunks[..|chunks| - 1]) + chunks[|chunks| - 1]
  }

  lemma ConcatSnoc<T>(chunks: seq<seq<T>>, c: seq<T>)
    ensures Concat(chunks + [c]) == Concat(chunks) + c
  {
    assert (chunks + [c])[..|chunks|] == chunks;
  }

  /** What a series of writes publishes when each starts from what the one before left. */
  ghost function Published(partial: seq<byte>, chunks: seq<seq<byte>>): (seq<Line>, seq<byte>)
    decreases |chunks|
  {
    if chunks == [] then ([], partial)
    else
      var (lines, rest) := Published(Rest(partial + chunks[0]), chunks[1..]);
      (Lines(partial + chunks[0]) + lines, rest)
  }

  /** The published lines and the unfinished one depend on the bytes written, not on the cuts. */
  lemma {:induction false} CutsDoNotMatter(partial: seq<byte>, chunks: seq<seq<byte>>)
    requires LF !in partial
    ensures Published(partial, chunks) == (Lines(partial + Concat(chunks)), Rest(partial + Concat(chunks)))
    decreases |chunks|
  {
    if chunks == [] {
      assert partial + Concat(chunks) == partial;
      NoBreakNoLines(partial);
    } else {
      ConcatCons(chunks);
      var p := partial + chunks[0];
      RestHasNoBreak(p);
      CutsDoNotMatter(Rest(p), chunks[1..]);
      LinesJoin(p, Concat(chunks[1..]));
      assert partial + Concat(chunks) == p + Concat(chunks[1..]);
    }
  }

  lemma {:induction false} ConcatCons<T>(chunks: seq<seq<T>>)
    requires chunks != []
    ensures Concat(chunks) == chunks[0] + Concat(chunks[1..])
    decreases |chunks|
  {
    var n := |chunks| - 1;
    if n == 0 {
      assert chunks[..n] == [] && chunks[1..] == [];
    } else {
      var middle := chunks[1..][..n - 1];
      ConcatCons(chunks[..n]);
      assert chunks[..n][1..] == middle && chunks[1..] == middle + [chunks[n]];
      ConcatSnoc(middle, chunks[n]);
      Assoc(chunks[0], Concat(middle), chunks[n]);
    }
  }

  /** The place of the first line feed, or -1. */
  function IndexOf(s: seq<byte>): (i: int)
    ensures -1 <= i < |s|
    ensures i < 0 ==> LF !in s
    ensures i >= 0 ==> s[i] == LF && LF !in s[..i]
  {
    if s == [] then -1
    else if s[0] == LF then 0
    else
      var r := IndexOf(s[1..]);
      assert s == [s[0]] + s[1..];
      if r < 0 then -1 else
        assert s[..r + 1] == [s[0]] + s[1..][..r];
        r + 1
  }

  lemma NextLine(kept: seq<byte>, left: seq<byte>)
    requires LF !in kept && IndexOf(left) >= 0
    ensures var i := IndexOf(left);
            && Lines(kept + left) == [TrimLineBreak(kept + left[..i])] + Lines(left[i + 1..])
            && Rest(kept + left) == Rest(left[i + 1..])
  {
    var i := IndexOf(left);
    assert kept + left == (kept + left[..i]) + [LF] + left[i + 1..];
    LinesCut(kept + left[..i], left[i + 1..]);
  }

  lemma Shift<T>(done: seq<T>, x: T, more: seq<T>)
    ensures done + ([x] + more) == done + [x] + more
  {
  }

  /** Cuts one write into lines; `partial` is what the writes before left. */
  method Publish(partial: seq<byte>, p: seq<byte>) returns (lines: seq<Line>, kept: seq<byte>)
    requires LF !in partial
    ensures lines == Lines(partial + p) && kept == Rest(partial + p)
    ensures Spelled(partial + p, lines, kept)
  {
    lines, kept := [], partial;
    var left := p;
    while |left| > 0
      invariant LF !in kept
      invariant lines + Lines(kept + left) == Lines(partial + p)
      invariant Rest(kept + left) == Rest(partial + p)
    {
      var i := IndexOf(left);
      if i < 0 {
        kept := kept + left;
        left := [];
        assert kept + left == kept;
        break;
      }
      NextLine(kept, left);
      var line := left[..i];
      Shift(lines, TrimLineBreak(kept + line), Lines(left[i + 1..]));
      if |kept| > 0 {
        kept := kept + line;
        lines := lines + [TrimLineBreak(kept)];
        kept := [];
      } else {
        assert kept + line == line;
        lines := lines + [TrimLineBreak(line)];
      }
      left := left[i + 1..];
      assert kept + left == left;
    }
    assert kept + left == kept;
    NoBreakNoLines(kept);
    LinesSpell(partial + p);
  }

  // ---- The snapshot ------------------------------------------------------------------

  /** Every line of the text, with an unfinished last one as it stands. */
  ghost function SnapshotLines(s: seq<byte>): seq<Line> {
    Lines(s) + if Rest(s) == [] then [] else [TrimLineBreak(Rest(s))]
  }

  /** The text is these lines; an unfinished last one is there without one CR at its end. */
  ghost predicate Shows(s: seq<byte>, lines: seq<Line>) {
    || Spelled(s, lines, [])
    || (exists rest :: ShowsRest(s, lines, rest))
  }

  ghost predicate ShowsRest(s: seq<byte>, lines: seq<Line>, rest: seq<byte>) {
    && lines != [] && rest != [] && Spelled(s, lines[..|lines| - 1], rest)
    && rest == lines[|lines| - 1] + if EndsInCR(rest) then [CR] else []
  }

  lemma SnapshotShows(s: seq<byte>)
    ensures Shows(s, SnapshotLines(s))
  {
    LinesSpell(s);
    var lines, rest := SnapshotLines(s), Rest(s);
    if rest == [] {
      assert lines == Lines(s);
    } else {
      RestHasNoBreak(s);
      TrimmedLine(rest);
      assert lines[..|lines| - 1] == Lines(s);
      assert ShowsRest(s, lines, rest);
    }
  }

  lemma SnapshotOfOne(text: seq<byte>)
    requires text != [] && LF !in text
    ensures SnapshotLines(text) == [TrimLineBreak(text)] + SnapshotLines([])
  {
    NoBreakNoLines(text);
    assert SnapshotLines([]) == [];
  }

  lemma SnapshotCut(head: seq<byte>, tail: seq<byte>)
    requires LF !in head
    ensures SnapshotLines(head + [LF] + tail) == [TrimLineBreak(head + [LF])] + SnapshotLines(tail)
  {
    LinesCut(head, tail);
    assert (head + [LF])[..|head|] == head;
    assert TrimLineBreak(head + [LF]) == TrimLineBreak(head);
    var last: seq<Line> := if Rest(tail) == [] then [] else [TrimLineBreak(Rest(tail))];
    Assoc([TrimLineBreak(head)], Lines(tail), last);
  }

  lemma SnapshotAt(text: seq<byte>, i: nat)
    requires i < |text| && text[i] == LF && LF !in text[..i]
    ensures SnapshotLines(text) == [TrimLineBreak(text[..i + 1])] + SnapshotLines(text[i + 1..])
  {
    var head, tail := text[..i], text[i + 1..];
    assert text[..i + 1] == head + [LF];
    assert text == head + [LF] + tail;
    SnapshotCut(head, tail);
  }

  /** The reader's next line, with its line feed if it has one. */
  method ReadString(text: seq<byte>) returns (line: seq<byte>, left: seq<byte>)
    requires text != []
    ensures line != [] && text == line + left
    ensures SnapshotLines(text) == [TrimLineBreak(line)] + SnapshotLines(left)
  {
    var i := IndexOf(text);
    if i < 0 {
      SnapshotOfOne(text);
      return text, [];
    }
    line, left := text[..i + 1], text[i + 1..];
    SnapshotAt(text, i);
  }

  /** Reads the file up to the offset and hands it out in batches. */
  method TailFileSnapshot(file: seq<byte>, offset: nat) returns (batches: seq<seq<Line>>)
    requires offset <= |file|
    ensures Concat(batches) == SnapshotLines(file[..offset]) && Shows(file[..offset], Concat(batches))
    ensures forall k :: 0 <= k < |batches| ==> 0 < |batches[k]| <= BATCH
    ensures forall k :: 0 <= k < |batches| - 1 ==> |batches[k]| == BATCH
  {
    SnapshotShows(file[..offset]);
    batches := [];
    var left := file[..offset];
    var lines := [];
    ghost var done: seq<Line> := [];
    while left != []
      invariant |lines| < BATCH && done == Concat(batches) + lines
      invariant done + SnapshotLines(left) == SnapshotLines(file[..offset])
      invariant forall k :: 0 <= k < |batches| ==> |batches[k]| == BATCH
      decreases |left|
    {
      var line;
      ghost var text := left;
      line, left := ReadString(left);
      Assoc(done, [TrimLineBreak(line)], SnapshotLines(left));
      Assoc(Concat(batches), lines, [TrimLineBreak(line)]);
      done := done + [TrimLineBreak(line)];
      lines := lines + [TrimLineBreak(line)];
      if |lines| >= BATCH {
        ConcatSnoc(batches, lines);
        batches := batches + [lines];
        lines := [];
      }
    }
    if |lines| > 0 {
      ConcatSnoc(batches, lines);
      batches := batches + [lines];
    }
  }

  // ---- The hand-over from snapshot to live stream --------------------------------------

  ghost function Breaks(s: seq<byte>): nat {
    multiset(s)[LF]
  }

  lemma {:induction false} OneLinePerBreak(s: seq<byte>)
    ensures |Lines(s)| == Breaks(s)
  {
    if s == [] {
    } else {
      var n := |s| - 1;
      OneLinePerBreak(s[..n]);
      assert s == s[..n] + [s[n]];
    }
  }

  lemma RestOfSuffix(a: seq<byte>, b: seq<byte>)
    requires Rest(a + b) == []
    ensures Rest(b) == []
  {
    if b != [] {
      assert (a + b)[|a + b| - 1] == b[|b| - 1];
    }
  }

  lemma JoinedOnBoundary(past: seq<byte>, first: seq<byte>, later: seq<byte>)
    requires Rest(past + first) == []
    ensures SnapshotLines(past + first) + Lines(Rest(first) + later) == Lines(past + first + later)
  {
    LinesJoin(past + first, later);
    RestOfSuffix(past, first);
    assert [] + later == later;
    assert SnapshotLines(past + first) == Lines(past + first);
  }

  lemma SameCount(a: seq<byte>, b: seq<byte>, later: seq<byte>)
    requires LF !in a && LF !in b
    ensures |Lines(a + later)| == |Lines(b + later)|
  {
    OneLinePerBreak(a + later);
    OneLinePerBreak(b + later);
  }

  lemma JoinedInsideLine(past: seq<byte>, first: seq<byte>, later: seq<byte>)
    requires Rest(past + first) != []
    ensures |SnapshotLines(past + first) + Lines(Rest(first) + later)| == |Lines(past + first + later)| + 1
  {
    var file := past + first;
    LinesJoin(file, later);
    RestHasNoBreak(file);
    RestHasNoBreak(first);
    SameCount(Rest(file), Rest(first), later);
  }

  /** A follower that joins when `past + first` is in the file, where this process wrote `first`, sees
      every line of the file once exactly when it joins on a line boundary. */
  lemma TailJoinsIff(past: seq<byte>, first: seq<byte>, later: seq<byte>)
    ensures SnapshotLines(past + first) + Lines(Rest(first) + later) == Lines(past + first + later)
            <==> Rest(past + first) == []
  {
    if Rest(past + first) == [] {
      JoinedOnBoundary(past, first, later);
    } else {
      JoinedInsideLine(past, first, later);
    }
  }

  /** What this process wrote before and after a follower joined. */
  datatype Joined = Joined(first: seq<byte>, later: seq<byte>)

  /** The batches are the lines that were finished since the follower joined. */
  ghost predicate Followed(wrote: seq<byte>, j: Joined, batches: seq<seq<Line>>) {
    wrote == j.first + j.later && Concat(batches) == Lines(Rest(j.first) + j.later)
  }

  /** A follower's channel after a publication; without lines nothing is sent. */
  function SentTo(batches: seq<seq<Line>>, lines: seq<Line>): seq<seq<Line>> {
    if |lines| == 0 then batches else batches + [lines]
  }

  ghost function Later(j: Joined, q: seq<byte>): Joined {
    j.(later := j.later + q)
  }

  lemma FollowedOn(wrote: seq<byte>, j: Joined, batches: seq<seq<Line>>, q: seq<byte>, lines: seq<Line>)
    requires Followed(wrote, j, batches) && lines == Lines(Rest(wrote) + q)
    ensures Followed(wrote + q, Later(j, q), SentTo(batches, lines))
  {
    var r := Rest(j.first);
    LinesJoin(r + j.later, q);
    LinesJoin(j.first, j.later);
    Assoc(r, j.later, q);
    Assoc(j.first, j.later, q);
    ConcatSnoc(batches, lines);
    assert lines == [] ==> Concat(batches) + lines == Concat(batches);
  }

  type Channels = map<nat, seq<seq<Line>>>

  ghost predicate AllFollowed(wrote: seq<byte>, joined: map<nat, Joined>, subs: Channels) {
    subs.Keys == joined.Keys && forall id :: id in subs ==> Followed(wrote, joined[id], subs[id])
  }

  function Sent(subs: Channels, lines: seq<Line>): Channels {
    map id | id in subs :: SentTo(subs[id], lines)
  }

  ghost function AllLater(joined: map<nat, Joined>, q: seq<byte>): map<nat, Joined> {
    map id | id in joined :: Later(joined[id], q)
  }

  lemma AllFollowedOn(wrote: seq<byte>, joined: map<nat, Joined>, subs: Channels, q: seq<byte>, lines: seq<Line>)
    requires AllFollowed(wrote, joined, subs) && lines == Lines(Rest(wrote) + q)
    ensures AllFollowed(wrote + q, AllLater(joined, q), Sent(subs, lines))
  {
    var after, sent := AllLater(joined, q), Sent(subs, lines);
    forall id | id in sent ensures Followed(wrote + q, after[id], sent[id]) {
      FollowedOn(wrote, joined[id], subs[id], q, lines);
      assert sent[id] == SentTo(subs[id], lines) && after[id] == Later(joined[id], q);
    }
  }

  lemma NothingLater(wrote: seq<byte>, joined: map<nat, Joined>)
    ensures wrote + [] == wrote && AllLater(joined, []) == joined
  {
    assert forall id :: id in joined ==> joined[id].later + [] == joined[id].later;
  }

  class Log {
    var file: seq<byte>
    var partial: seq<byte>
    var subs: Channels
    var next: nat
    ghost const past: seq<byte>
    ghost var wrote: seq<byte>
    ghost var joined: map<nat, Joined>

    /** The unfinished line is that of this process's own writes, and each follower has the lines
        that were finished since it joined. */
    ghost predicate Valid()
      reads this
    {
      && file == past + wrote && partial == Rest(wrote)
      && AllFollowed(wrote, joined, subs) && forall id :: id in subs ==> id < next
    }

    constructor (existing: seq<byte>)
      ensures Valid() && file == past == existing && subs == map[]
    {
      file, partial, subs, next := existing, [], map[], 0;
      past, wrote, joined := existing, [], map[];
    }

    /** Writes to the file, which may take a part only, and publishes what it took. */
    method Write(p: seq<byte>, taken: nat)
      requires Valid() && taken <= |p|
      modifies this
      ensures Valid() && wrote == old(wrote) + p[..taken]
      ensures joined == AllLater(old(joined), p[..taken])
    {
      var q := p[..taken];
      if taken == 0 {
        NothingLater(wrote, joined);
        return;
      }
      file := file + q;
      PublishAll(q);
    }

    method PublishAll(q: seq<byte>)
      requires file == past + wrote + q && partial == Rest(wrote)
      requires AllFollowed(wrote, joined, subs) && forall id :: id in subs ==> id < next
      modifies this`partial, this`subs, this`wrote, this`joined
      ensures Valid() && wrote == old(wrote) + q && joined == AllLater(old(joined), q)
    {
      RestHasNoBreak(wrote);
      LinesJoin(wrote, q);
      Assoc(past, wrote, q);
      var lines;
      lines, partial := Publish(partial, q);
      AllFollowedOn(wrote, joined, subs, q, lines);
      subs := Sent(subs, lines);
      wrote, joined := wrote + q, AllLater(joined, q);
    }

    /** Joins: from here on the follower's channel gets what is published. */
    method Subscribe() returns (id: nat, offset: nat)
      requires Valid()
      modifies this
      ensures Valid() && file == old(file) && offset == |file| && id !in old(subs)
      ensures subs == old(subs)[id := []] && joined == old(joined)[id := Joined(wrote, [])] && wrote == old(wrote)
    {
      id, offset := next, |file|;
      next := next + 1;
      subs := subs[id := []];
      joined := joined[id := Joined(wrote, [])];
      assert Followed(wrote, Joined(wrote, []), []) by {
        assert wrote + [] == wrote && Rest(wrote) + [] == Rest(wrote);
        RestHasNoBreak(wrote);
        NoBreakNoLines(Rest(wrote));
      }
    }

    method Unsubscribe(id: nat)
      requires Valid()
      modifies this
      ensures Valid() && file == old(file) && subs == old(subs) - {id} && joined == old(joined) - {id}
    {
      subs := subs - {id};
      joined := joined - {id};
    }

    /** Follows the log: joins, then reads the snapshot up to where it joined. */
    method Tail() returns (id: nat, snapshot: seq<seq<Line>>)
      requires Valid()
      modifies this
      ensures Valid() && id in subs && joined[id] == Joined(wrote, [])
      ensures Concat(snapshot) == SnapshotLines(past + joined[id].first)
      ensures Shows(past + joined[id].first, Concat(snapshot))
    {
      var offset;
      id, offset := Subscribe();
      snapshot := TailFileSnapshot(file, offset);
      assert file[..offset] == file;
    }

    /** In every state, snapshot and live stream together are the lines of the file, each once,
        exactly for followers that joined on a line boundary. */
    lemma FollowerSeesAllIff(id: nat)
      requires Valid() && id in subs
      ensures SnapshotLines(past + joined[id].first) + Concat(subs[id]) == Lines(file)
              <==> Rest(past + joined[id].first) == []
    {
      var j := joined[id];
      assert Followed(wrote, j, subs[id]);
      Assoc(past, j.first, j.later);
      TailJoinsIff(past, j.first, j.later);
    }
  }
}
