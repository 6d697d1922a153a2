/**
 * `send_long_message`: a reply longer than the message limit is cut into parts.
 * The text is split at newlines and the lines are packed greedily into parts of
 * at most `max` characters; a line longer than `max` is cut into slices of `max`
 * characters.  When there is more than one part, each is sent behind a
 * `[i/n]` header and a blank line.  Both bots use this algorithm with
 * `max == 4096`; it is stated here for any positive limit.
 */
module Chunker {
  import opened Wrappers
  import Strings
  import Numerals
  import Transport

  /** The packing loop's state: the parts finished so far and the part being filled. */
  datatype Packing = Packing(parts: seq<string>, current: string)

  /** `[line[i:i + max] for i in range(0, len(line), max)]`. */
  function HardSplit(line: string, max: nat): seq<string>
    requires max > 0
    decreases |line|
  {
    if line == [] then []
    else if |line| <= max then [line]
    else [line[..max]] + HardSplit(line[max..], max)
  }

  /** `if current_part: parts.append(current_part)`. */
  function Flush(p: Packing): seq<string>
  {
    if p.current != "" then p.parts + [p.current] else p.parts
  }

  /** One turn of the loop over the lines.  The candidate length counts the
      joining newline even when the current part is still empty. */
  function PackLine(p: Packing, line: string, max: nat): Packing
    requires max > 0
  {
    if |p.current| + |line| + 1 <= max then
      Packing(p.parts, if p.current != "" then p.current + "\n" + line else line)
    else if |line| > max then
      Packing(Flush(p) + HardSplit(line, max), "")
    else
      Packing(Flush(p), line)
  }

  /** The loop over the remaining `lines`, from state `p`. */
  function PackLines(p: Packing, lines: seq<string>, max: nat): Packing
    requires max > 0
    decreases |lines|
  {
    if lines == [] then p else PackLines(PackLine(p, lines[0], max), lines[1..], max)
  }

  /** The parts a text over the limit is cut into. */
  function LongParts(text: string, max: nat): seq<string>
    requires max > 0
  {
    Flush(PackLines(Packing([], ""), Strings.Split(text, '\n'), max))
  }

  /** `f"[{i}/{n}]\n\n"`. */
  function Header(i: nat, n: nat): string
  {
    "[" + Numerals.NatToString(i) + "/" + Numerals.NatToString(n) + "]\n\n"
  }

  /** The messages sent for the parts: numbered when there are several. */
  function Numbered(parts: seq<string>): seq<string>
  {
    if |parts| > 1 then seq(|parts|, k requires 0 <= k < |parts| => Header(k + 1, |parts|) + parts[k])
    else parts
  }

  /** Every message `send_long_message` replies, in order. */
  function Replies(text: string, max: nat): seq<string>
    requires max > 0
  {
    if |text| <= max then [text] else Numbered(LongParts(text, max))
  }

  // ---------------------------------------------------------------------------
  // The algorithm as the bots run it.

  /** The packing loop of `send_long_message`, on a text over the limit. */
  method SplitParts(text: string, max: nat) returns (parts: seq<string>)
    requires max > 0
    ensures parts == LongParts(text, max)
  {
    var lines := Strings.Split(text, '\n');
    parts := [];
    var current := "";
    for k := 0 to |lines|
      invariant PackLines(Packing(parts, current), lines[k..], max) == PackLines(Packing([], ""), lines, max)
    {
      var line := lines[k];
      ghost var before := Packing(parts, current);
      assert lines[k..] == [line] + lines[k + 1..];
      if |current| + |line| + 1 <= max {
        if current != "" {
          current := current + "\n" + line;
        } else {
          current := line;
        }
      } else {
        if current != "" {
          parts := parts + [current];
        }
        if |line| > max {
          var i := 0;
          ghost var flushed := parts;
          while i < |line|
            invariant 0 <= i <= |line|
            invariant parts + HardSplit(line[i..], max) == flushed + HardSplit(line, max)
            decreases |line| - i
          {
            var end := if i + max <= |line| then i + max else |line|;
            SliceStep(line, i, max);
            parts := parts + [line[i..end]];
            i := end;
          }
          assert line[i..] == [];
          current := "";
        } else {
          current := line;
        }
      }
      assert Packing(parts, current) == PackLine(before, line, max);
    }
    if current != "" {
      parts := parts + [current];
    }
  }

  /** `send_long_message`: the text itself when it fits, otherwise every part in order. */
  method SendLongMessage(chat: Transport.Chat, text: string, max: nat)
    requires max > 0
    modifies chat
    ensures chat.sent == old(chat.sent) + Replies(text, max)
  {
    if |text| <= max {
      chat.Reply(text);
      return;
    }
    var parts := SplitParts(text, max);
    ghost var replies := Numbered(parts);
    for i := 0 to |parts|
      invariant chat.sent == old(chat.sent) + replies[..i]
    {
      if |parts| > 1 {
        chat.Reply(Header(i + 1, |parts|) + parts[i]);
      } else {
        chat.Reply(parts[i]);
      }
      assert replies[..i + 1] == replies[..i] + [replies[i]];
    }
    assert replies[..|parts|] == replies;
  }

  /** One slice of the hard split: what remains after it is split the same way. */
  lemma SliceStep(line: string, i: nat, max: nat)
    requires max > 0 && i < |line|
    ensures var end := if i + max <= |line| then i + max else |line|;
            HardSplit(line[i..], max) == [line[i..end]] + HardSplit(line[end..], max)
  {
    var end := if i + max <= |line| then i + max else |line|;
    var s := line[i..];
    if |s| > max {
      assert s[..max] == line[i..end];
      assert s[max..] == line[end..];
    } else {
      assert s == line[i..end];
      assert line[end..] == [];
    }
  }

  // ---------------------------------------------------------------------------
  // The hard split of an over-long line.

  /** The slices put back together are the line. */
  lemma {:induction false} HardSplitConcat(line: string, max: nat)
    requires max > 0
    ensures Strings.Concat(HardSplit(line, max)) == line
    decreases |line|
  {
    if |line| > max {
      HardSplitConcat(line[max..], max);
      assert line[..max] + line[max..] == line;
    }
  }

  /** Every slice is non-empty and at most `max` long; all but the last are exactly `max`. */
  lemma {:induction false} HardSplitSlices(line: string, max: nat)
    requires max > 0
    ensures forall k :: 0 <= k < |HardSplit(line, max)| ==> 0 < |HardSplit(line, max)[k]| <= max
    ensures forall k :: 0 <= k < |HardSplit(line, max)| - 1 ==> |HardSplit(line, max)[k]| == max
    decreases |line|
  {
    if |line| > max {
      var r, tail := HardSplit(line, max), HardSplit(line[max..], max);
      HardSplitSlices(line[max..], max);
      assert forall k :: 1 <= k < |r| ==> r[k] == tail[k - 1];
    }
  }

  /** There are `ceil(|line| / max)` slices. */
  lemma {:induction false} HardSplitCount(line: string, max: nat)
    requires max > 0
    ensures var r := HardSplit(line, max);
            (|r| == 0 <==> line == []) && (line != [] ==> (|r| - 1) * max < |line| <= |r| * max)
    decreases |line|
  {
    if |line| > max {
      var tail := line[max..];
      HardSplitCount(tail, max);
      var n := |HardSplit(tail, max)|;
      assert |HardSplit(line, max)| == n + 1;
      assert (n + 1) * max == n * max + max;
    }
  }

  /** A character absent from the line is absent from every slice. */
  lemma {:induction false} HardSplitLacks(line: string, max: nat, c: char)
    requires max > 0 && c !in line
    ensures forall k :: 0 <= k < |HardSplit(line, max)| ==> c !in HardSplit(line, max)[k]
    decreases |line|
  {
    if |line| > max {
      var tail := line[max..];
      assert c !in line[..max] && c !in tail by {
        assert forall j :: 0 <= j < max ==> line[..max][j] == line[j];
        assert forall j :: 0 <= j < |tail| ==> tail[j] == line[max + j];
      }
      HardSplitLacks(tail, max, c);
    }
  }

  // ---------------------------------------------------------------------------
  // Every part fits the limit.

  /** Every part is non-empty and at most `max` characters long. */
  predicate Within(parts: seq<string>, max: nat)
  {
    forall k :: 0 <= k < |parts| ==> 0 < |parts[k]| <= max
  }

  /** The loop invariant: finished parts fit, and so does the current part. */
  predicate Packed(p: Packing, max: nat)
  {
    |p.current| <= max && Within(p.parts, max)
  }

  lemma PackLinePacked(p: Packing, line: string, max: nat)
    requires max > 0 && Packed(p, max)
    ensures Packed(PackLine(p, line, max), max)
  {
    if |p.current| + |line| + 1 > max {
      var flushed := Flush(p);
      assert Within(flushed, max) by {
        if p.current != "" {
          assert forall k :: 0 <= k < |p.parts| ==> flushed[k] == p.parts[k];
        }
      }
      if |line| > max {
        HardSplitSlices(line, max);
        var r := HardSplit(line, max);
        var all := flushed + r;
        assert forall k :: |flushed| <= k < |all| ==> all[k] == r[k - |flushed|];
      }
    }
  }

  lemma {:induction false} PackLinesPacked(p: Packing, lines: seq<string>, max: nat)
    requires max > 0 && Packed(p, max)
    ensures Packed(PackLines(p, lines, max), max)
    decreases |lines|
  {
    if lines != [] {
      PackLinePacked(p, lines[0], max);
      PackLinesPacked(PackLine(p, lines[0], max), lines[1..], max);
    }
  }

  /** No part of a long text is empty or over the limit. */
  lemma PartsWithinLimit(text: string, max: nat)
    requires max > 0
    ensures Within(LongParts(text, max), max)
  {
    PackLinesPacked(Packing([], ""), Strings.Split(text, '\n'), max);
  }

  // ---------------------------------------------------------------------------
  // The parts hold the text's lines, in order.

  /** The list without its empty strings. */
  function NonEmpty(s: seq<string>): seq<string>
  {
    if s == [] then [] else (if s[0] == "" then [] else [s[0]]) + NonEmpty(s[1..])
  }

  /** The lines of every part, one part after the other. */
  function Fragments(parts: seq<string>): seq<string>
  {
    if parts == [] then [] else Strings.Split(parts[0], '\n') + Fragments(parts[1..])
  }

  /** What a line of the text becomes: its slices when it is over the limit. */
  function Piece(line: string, max: nat): seq<string>
    requires max > 0
  {
    if |line| > max then HardSplit(line, max) else [line]
  }

  function Pieces(lines: seq<string>, max: nat): seq<string>
    requires max > 0
  {
    if lines == [] then [] else Piece(lines[0], max) + Pieces(lines[1..], max)
  }

  /** The non-empty lines the packing state holds, finished parts first. */
  function Carried(p: Packing): seq<string>
  {
    NonEmpty(Fragments(p.parts) + Strings.Split(p.current, '\n'))
  }

  lemma {:induction false} NonEmptyAppend(a: seq<string>, b: seq<string>)
    ensures NonEmpty(a + b) == NonEmpty(a) + NonEmpty(b)
  {
    if a == [] {
      assert a + b == b;
    } else {
      var ab := a + b;
      var head := if a[0] == "" then [] else [a[0]];
      assert ab[0] == a[0];
      assert ab[1..] == a[1..] + b;
      assert NonEmpty(ab) == head + NonEmpty(a[1..] + b);
      NonEmptyAppend(a[1..], b);
      assert NonEmpty(a) == head + NonEmpty(a[1..]);
    }
  }

  lemma {:induction false} NonEmptyKeeps(s: seq<string>)
    requires forall k :: 0 <= k < |s| ==> s[k] != ""
    ensures NonEmpty(s) == s
  {
    if s != [] {
      NonEmptyKeeps(s[1..]);
    }
  }

  lemma {:induction false} FragmentsAppend(a: seq<string>, b: seq<string>)
    ensures Fragments(a + b) == Fragments(a) + Fragments(b)
  {
    if a == [] {
      assert a + b == b;
    } else {
      var ab := a + b;
      var head := Strings.Split(a[0], '\n');
      assert ab[0] == a[0];
      assert ab[1..] == a[1..] + b;
      assert Fragments(ab) == head + Fragments(a[1..] + b);
      FragmentsAppend(a[1..], b);
      assert Fragments(a) == head + Fragments(a[1..]);
    }
  }

  /** A string without a newline is one line. */
  lemma SplitLineless(s: string)
    requires '\n' !in s
    ensures Strings.Split(s, '\n') == [s]
  {
  }

  lemma {:induction false} FragmentsLineless(parts: seq<string>)
    requires forall k :: 0 <= k < |parts| ==> '\n' !in parts[k]
    ensures Fragments(parts) == parts
  {
    if parts != [] {
      SplitLineless(parts[0]);
      FragmentsLineless(parts[1..]);
    }
  }

  /** Finishing the current part keeps the lines the state holds. */
  lemma FlushCarried(p: Packing)
    ensures NonEmpty(Fragments(Flush(p))) == Carried(p)
  {
    var f := Fragments(p.parts);
    if p.current != "" {
      FragmentsAppend(p.parts, [p.current]);
      assert Fragments([p.current]) == Strings.Split(p.current, '\n');
    } else {
      NonEmptyAppend(f, [""]);
      assert Strings.Split(p.current, '\n') == [""];
    }
  }

  /** One turn of the loop adds the line's non-empty pieces to what the state holds. */
  lemma PackLineCarried(p: Packing, line: string, max: nat)
    requires max > 0 && '\n' !in line
    ensures Carried(PackLine(p, line, max)) == Carried(p) + NonEmpty(Piece(line, max))
  {
    var f := Fragments(p.parts);
    var c := Strings.Split(p.current, '\n');
    SplitLineless(line);
    if |p.current| + |line| + 1 <= max {
      if p.current != "" {
        Strings.SplitExtend(p.current, line, '\n');
        assert p.current + "\n" + line == p.current + ['\n'] + line;
        NonEmptyAppend(f + c, [line]);
        assert f + (c + [line]) == (f + c) + [line];
      } else {
        NonEmptyAppend(f, c);
        NonEmptyAppend(f, [line]);
        assert c == [""];
      }
    } else {
      FlushCarried(p);
      var g := Fragments(Flush(p));
      if |line| > max {
        var r := HardSplit(line, max);
        HardSplitLacks(line, max, '\n');
        FragmentsLineless(r);
        FragmentsAppend(Flush(p), r);
        NonEmptyAppend(g + r, [""]);
        NonEmptyAppend(g, r);
        assert Strings.Split("", '\n') == [""];
      } else {
        NonEmptyAppend(g, [line]);
      }
    }
  }

  lemma {:induction false} PackLinesCarried(p: Packing, lines: seq<string>, max: nat)
    requires max > 0 && forall k :: 0 <= k < |lines| ==> '\n' !in lines[k]
    ensures Carried(PackLines(p, lines, max)) == Carried(p) + NonEmpty(Pieces(lines, max))
    decreases |lines|
  {
    if lines != [] {
      var q, tail := PackLine(p, lines[0], max), lines[1..];
      var one, rest := NonEmpty(Piece(lines[0], max)), NonEmpty(Pieces(tail, max));
      assert forall k :: 0 <= k < |tail| ==> tail[k] == lines[k + 1];
      PackLineCarried(p, lines[0], max);
      PackLinesCarried(q, tail, max);
      assert PackLines(p, lines, max) == PackLines(q, tail, max);
      assert Pieces(lines, max) == Piece(lines[0], max) + Pieces(tail, max);
      NonEmptyAppend(Piece(lines[0], max), Pieces(tail, max));
      assert NonEmpty(Pieces(lines, max)) == one + rest;
      Strings.AppendAssoc(Carried(p), one, rest);
    } else {
      assert Pieces(lines, max) == [];
      assert NonEmpty(Pieces(lines, max)) == [];
      assert Carried(p) + [] == Carried(p);
    }
  }

  /** Cut at their newlines, the parts are the text's non-empty lines in order, each
      line over the limit replaced by its slices.  Blank lines and the newlines
      between parts are all that is lost. */
  lemma PartsKeepLines(text: string, max: nat)
    requires max > 0
    ensures NonEmpty(Fragments(LongParts(text, max))) == NonEmpty(Pieces(Strings.Split(text, '\n'), max))
  {
    var lines := Strings.Split(text, '\n');
    Strings.SplitPiecesLackSeparator(text, '\n');
    var start := Packing([], "");
    assert Carried(start) == [] by {
      var e: seq<string> := [];
      assert Strings.Split("", '\n') == [""];
      assert Fragments(e) + [""] == [""];
      assert NonEmpty([""]) == [];
    }
    PackLinesCarried(start, lines, max);
    FlushCarried(PackLines(start, lines, max));
  }

  // ---------------------------------------------------------------------------
  // No character other than a newline is lost.

  lemma {:induction false} ConcatNonEmpty(s: seq<string>)
    ensures Strings.Concat(NonEmpty(s)) == Strings.Concat(s)
  {
    if s != [] {
      var head := if s[0] == "" then [] else [s[0]];
      ConcatNonEmpty(s[1..]);
      Strings.ConcatAppend(head, NonEmpty(s[1..]));
    }
  }

  lemma {:induction false} ConcatPieces(lines: seq<string>, max: nat)
    requires max > 0
    ensures Strings.Concat(Pieces(lines, max)) == Strings.Concat(lines)
  {
    if lines != [] {
      ConcatPieces(lines[1..], max);
      Strings.ConcatAppend(Piece(lines[0], max), Pieces(lines[1..], max));
      if |lines[0]| > max {
        HardSplitConcat(lines[0], max);
      }
    }
  }

  lemma {:induction false} ConcatFragments(parts: seq<string>)
    ensures Strings.Concat(Fragments(parts)) == Strings.Erase(Strings.Concat(parts), '\n')
  {
    if parts != [] {
      ConcatFragments(parts[1..]);
      Strings.ConcatAppend(Strings.Split(parts[0], '\n'), Fragments(parts[1..]));
      Strings.EraseIsConcatOfSplit(parts[0], '\n');
      Strings.EraseAppend(parts[0], Strings.Concat(parts[1..]), '\n');
    }
  }

  /** With the newlines taken out, the parts spell the text with its newlines taken out. */
  lemma PartsKeepText(text: string, max: nat)
    requires max > 0
    ensures Strings.Erase(Strings.Concat(LongParts(text, max)), '\n') == Strings.Erase(text, '\n')
  {
    var parts, lines := LongParts(text, max), Strings.Split(text, '\n');
    ConcatFragments(parts);
    ConcatNonEmpty(Fragments(parts));
    PartsKeepLines(text, max);
    ConcatNonEmpty(Pieces(lines, max));
    ConcatPieces(lines, max);
    Strings.EraseIsConcatOfSplit(text, '\n');
  }

  // ---------------------------------------------------------------------------
  // Blank lines with nothing before them in the part are dropped.

  /** Empty lines reaching an empty current part change nothing, whatever parts are
      already finished: at the start of the text or after a long line was cut. */
  lemma {:induction false} PackBlankLines(parts: seq<string>, lines: seq<string>, max: nat)
    requires max > 0 && forall k :: 0 <= k < |lines| ==> lines[k] == ""
    ensures PackLines(Packing(parts, ""), lines, max) == Packing(parts, "")
    decreases |lines|
  {
    if lines != [] {
      PackBlankLines(parts, lines[1..], max);
    }
  }

  lemma {:induction false} SplitNewlines(s: string)
    requires forall i :: 0 <= i < |s| ==> s[i] == '\n'
    ensures forall k :: 0 <= k < |Strings.Split(s, '\n')| ==> Strings.Split(s, '\n')[k] == ""
    decreases |s|
  {
    if s != [] {
      Strings.SplitAt(s, '\n', 0);
      SplitNewlines(s[1..]);
    }
  }

  /** A text over the limit made only of newlines is sent as no message at all. */
  lemma OnlyNewlinesSendNothing(text: string, max: nat)
    requires max > 0 && |text| > max && forall i :: 0 <= i < |text| ==> text[i] == '\n'
    ensures Replies(text, max) == []
  {
    SplitNewlines(text);
    PackBlankLines([], Strings.Split(text, '\n'), max);
  }

  /** A newline opening the text is dropped without trace. */
  lemma LeadingNewlineDropped(text: string, max: nat)
    requires max > 0
    ensures LongParts("\n" + text, max) == LongParts(text, max)
  {
    var e: string := [];
    assert "\n" + text == e + ['\n'] + text;
    Strings.SplitFirst(e, text, '\n');
  }

  // ---------------------------------------------------------------------------
  // Packing decisions.

  /** Three lines without newlines, joined by newlines, split back into those lines. */
  lemma SplitThreeLines(a: string, b: string, c: string)
    requires '\n' !in a && '\n' !in b && '\n' !in c
    ensures Strings.Split(a + "\n" + b + "\n" + c, '\n') == [a, b, c]
  {
    var nl := "\n";
    var bc := b + nl + c;
    Strings.AppendAssoc(a + nl + b, nl, c);
    Strings.AppendAssoc(a + nl, b, nl + c);
    Strings.AppendAssoc(a, nl, bc);
    Strings.AppendAssoc(b, nl, c);
    assert nl == ['\n'];
    Strings.SplitFirst(a, bc, '\n');
    Strings.SplitFirst(b, c, '\n');
    SplitLineless(c);
  }

  /** The loop over those three lines when only the first two fit together. */
  lemma PackThreeLines(a: string, b: string, c: string, max: nat)
    requires max > 0 && a != "" && 0 < |c| <= max
    requires |a| + |b| + 1 <= max < |a| + |b| + |c| + 2
    ensures PackLines(Packing([], ""), [a, b, c], max) == Packing([a + "\n" + b], c)
  {
    var start := Packing([], "");
    var one := PackLine(start, a, max);
    assert one == Packing([], a);
    var two := PackLine(one, b, max);
    assert two == Packing([], a + "\n" + b);
    var three := PackLine(two, c, max);
    assert three == Packing([a + "\n" + b], c);
    var lines := [a, b, c];
    assert lines[0] == a && lines[1..] == [b, c];
    assert PackLines(start, lines, max) == PackLines(one, [b, c], max);
    assert PackLines(one, [b, c], max) == PackLines(two, [c], max);
    assert PackLines(two, [c], max) == PackLines(three, [], max);
  }

  /** In a text over the limit, two lines that fit together share one part, joined by
      their newline, and a third line that does not fit with them opens the next part. */
  lemma LinesShareAPart(a: string, b: string, c: string, max: nat)
    requires max > 0 && '\n' !in a && '\n' !in b && '\n' !in c
    requires a != "" && 0 < |c| <= max
    requires |a| + |b| + 1 <= max < |a| + |b| + |c| + 2
    ensures |a + "\n" + b + "\n" + c| > max
    ensures LongParts(a + "\n" + b + "\n" + c, max) == [a + "\n" + b, c]
  {
    SplitThreeLines(a, b, c);
    PackThreeLines(a, b, c, max);
  }

  /** Two lines that do not fit together go into two parts. */
  lemma LinesSplitAcrossParts(a: string, b: string, max: nat)
    requires max > 0 && '\n' !in a && '\n' !in b
    requires 0 < |a| <= max && 0 < |b| <= max && |a| + |b| + 1 > max
    ensures LongParts(a + "\n" + b, max) == [a, b]
  {
    assert a + "\n" + b == a + ['\n'] + b;
    Strings.SplitFirst(a, b, '\n');
    SplitLineless(b);
    var start := Packing([], "");
    var one := PackLine(start, a, max);
    assert one == Packing([], a);
    assert PackLine(one, b, max) == Packing([a], b);
    assert PackLines(start, [a, b], max) == PackLines(one, [b], max);
  }

  // ---------------------------------------------------------------------------
  // The `[i/n]` header can be read back.

  /** A message read as a numbered part: its index, the number of parts and the part. */
  datatype Numbering = Numbering(index: nat, total: nat, body: string)

  /** Reads `"[" digits "/" digits "]\n\n"` off the front of a message. */
  function ParseNumbered(m: string): Option<Numbering>
  {
    if m == [] || m[0] != '[' then None else ParseIndex(m[1..])
  }

  /** The index, up to the slash. */
  function ParseIndex(a: string): Option<Numbering>
  {
    if '/' !in a then None
    else
      var i := Strings.IndexOf(a, '/');
      var num := a[..i];
      if num == [] || !Numerals.AllDigits(num) then None
      else ParseTotal(Numerals.DigitsValue(num), a[i + 1..])
  }

  /** The number of parts, up to the bracket, then the blank line. */
  function ParseTotal(index: nat, b: string): Option<Numbering>
  {
    if ']' !in b then None
    else
      var j := Strings.IndexOf(b, ']');
      var den, rest := b[..j], b[j + 1..];
      if den == [] || !Numerals.AllDigits(den) || |rest| < 2 || rest[..2] != "\n\n" then None
      else Some(Numbering(index, Numerals.DigitsValue(den), rest[2..]))
  }

  /** Cutting a string at the first occurrence of `c` when `x` lacks it. */
  lemma FirstAfter(x: string, c: char, y: string)
    requires c !in x
    ensures c in x + [c] + y
    ensures Strings.IndexOf(x + [c] + y, c) == |x|
    ensures (x + [c] + y)[..|x|] == x && (x + [c] + y)[|x| + 1..] == y
  {
    var s := x + [c] + y;
    assert s[..|x|] == x;
    Strings.IndexOfAt(s, c, |x|);
  }

  lemma NumeralLacks(n: nat, c: char)
    requires !Numerals.IsDigit(c)
    ensures c !in Numerals.NatToString(n)
  {
    var r := Numerals.NatToString(n);
    assert forall k :: 0 <= k < |r| ==> r[k] != c;
  }

  lemma ParseTotalOf(index: nat, n: nat, body: string)
    ensures ParseTotal(index, Numerals.NatToString(n) + "]\n\n" + body) == Some(Numbering(index, n, body))
  {
    var N := Numerals.NatToString(n);
    var rest := "\n\n" + body;
    assert N + "]\n\n" + body == N + [']'] + rest;
    NumeralLacks(n, ']');
    FirstAfter(N, ']', rest);
    assert rest[..2] == "\n\n" && rest[2..] == body;
    Numerals.NatToStringRoundTrip(n);
  }

  lemma ParseIndexOf(i: nat, b: string)
    ensures ParseIndex(Numerals.NatToString(i) + "/" + b) == ParseTotal(i, b)
  {
    var I := Numerals.NatToString(i);
    assert I + "/" + b == I + ['/'] + b;
    NumeralLacks(i, '/');
    FirstAfter(I, '/', b);
    Numerals.NatToStringRoundTrip(i);
  }

  /** The header gives back the part's index, the number of parts and the part. */
  lemma HeaderRoundTrip(i: nat, n: nat, body: string)
    ensures ParseNumbered(Header(i, n) + body) == Some(Numbering(i, n, body))
  {
    var I, N := Numerals.NatToString(i), Numerals.NatToString(n);
    var open, slash, close := "[", "/", "]\n\n";
    var b := N + close + body;
    var m := Header(i, n) + body;
    // Regroup `[` I `/` N `]\n\n` body so that it starts with the bracket alone.
    assert m == open + I + slash + N + close + body;
    Strings.AppendAssoc(open + I + slash + N, close, body);
    Strings.AppendAssoc(open + I + slash, N, close + body);
    Strings.AppendAssoc(N, close, body);
    Strings.AppendAssoc(open + I, slash, b);
    Strings.AppendAssoc(open, I, slash + b);
    Strings.AppendAssoc(I, slash, b);
    assert m == open + (I + slash + b);
    assert m[1..] == I + "/" + b;
    ParseIndexOf(i, b);
    ParseTotalOf(i, n, body);
  }

  /** Every numbered message reads back as its part, its position and the count. */
  lemma NumberedDecodes(parts: seq<string>)
    requires |parts| > 1
    ensures |Numbered(parts)| == |parts|
    ensures forall k :: 0 <= k < |parts| ==>
              ParseNumbered(Numbered(parts)[k]) == Some(Numbering(k + 1, |parts|, parts[k]))
  {
    forall k | 0 <= k < |parts|
      ensures ParseNumbered(Numbered(parts)[k]) == Some(Numbering(k + 1, |parts|, parts[k]))
    {
      var m := Numbered(parts)[k];
      assert m == Header(k + 1, |parts|) + parts[k];
      HeaderRoundTrip(k + 1, |parts|, parts[k]);
    }
  }

  // ---------------------------------------------------------------------------
  // At Telegram's limit of 4096 characters.

  lemma SmallHeaders()
    ensures Header(1, 2) == "[1/2]\n\n" && Header(2, 2) == "[2/2]\n\n"
    ensures Header(1, 3) == "[1/3]\n\n" && Header(2, 3) == "[2/3]\n\n" && Header(3, 3) == "[3/3]\n\n"
  {
    assert Numerals.NatToString(1) == "1" && Numerals.NatToString(2) == "2" && Numerals.NatToString(3) == "3";
  }

  /** The parts of a text that is one line over the limit: its slices. */
  lemma OneLongLine(s: string, max: nat)
    requires max > 0 && |s| > max && '\n' !in s
    ensures LongParts(s, max) == HardSplit(s, max)
  {
    SplitLineless(s);
    var start := Packing([], "");
    assert PackLines(start, [s], max) == PackLine(start, s, max);
  }

  /** A 10000-character line goes out as three numbered messages of 4096, 4096 and 1808
      characters of text. */
  lemma TenThousandCharacters(s: string)
    requires |s| == 10000 && '\n' !in s
    ensures Replies(s, 4096) == ["[1/3]\n\n" + s[..4096], "[2/3]\n\n" + s[4096..8192], "[3/3]\n\n" + s[8192..]]
  {
    OneLongLine(s, 4096);
    var t := s[4096..];
    assert t[..4096] == s[4096..8192] && t[4096..] == s[8192..];
    assert HardSplit(t, 4096) == [s[4096..8192], s[8192..]];
    assert HardSplit(s, 4096) == [s[..4096], s[4096..8192], s[8192..]];
    SmallHeaders();
  }

  /** The header is not budgeted: a line one character over the limit goes out as a
      first message of 4103 characters, over the limit it was cut for. */
  lemma HeaderOverflow(s: string)
    requires |s| == 4097 && '\n' !in s
    ensures Replies(s, 4096) == ["[1/2]\n\n" + s[..4096], "[2/2]\n\n" + s[4096..]]
    ensures |Replies(s, 4096)[0]| == 4103
  {
    OneLongLine(s, 4096);
    assert HardSplit(s, 4096) == [s[..4096], s[4096..]];
    SmallHeaders();
  }
}
