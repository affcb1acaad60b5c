/** The server-sent-events framing done by the writer goroutine of the
    `/api/chatroomSSE` handler, and the reading a client makes of the resulting
    byte stream.

    Writing: each rendered fragment taken from the channel has one trailing
    newline trimmed, is split at newlines, and every piece is written as a
    `data: <piece>` line; then `"\n\n"` is written (the first newline ends an
    event, the second is an extra blank line).

    Reading: `Decode` is the event-stream interpretation of section 9.2.6 of the
    WHATWG HTML Living Standard restricted to what this writer can produce: lines
    end with LF, `data` fields append their value and a LF to the data buffer, a
    blank line dispatches the buffer (without its final LF) unless it is empty,
    and an unterminated last line is discarded. It is the partner against which
    the framing is proved: a client reads back exactly the trimmed fragments,
    one event per fragment, in channel order. */
module EventStream {
  import opened Wrappers
  import opened GoText

  const DataPrefix: string := "data: "

  // ---------------------------------------------------------------------------
  // Writing

  /** The pieces written for one fragment: `strings.Split(strings.TrimSuffix(m, "\n"), "\n")`. */
  function Pieces(fragment: string): (r: seq<string>)
    ensures |r| >= 1
    ensures forall i :: 0 <= i < |r| ==> '\n' !in r[i]
  {
    Split(TrimSuffix(fragment, "\n"), '\n')
  }

  /** The `data:` lines written for the pieces, in order. */
  function DataLines(ps: seq<string>): string
    decreases |ps|
  {
    if ps == [] then "" else DataPrefix + ps[0] + "\n" + DataLines(ps[1..])
  }

  /** Everything the writer writes for one fragment. It starts with a data line
      (there is always one, even for an empty fragment) and ends with the LF of
      its last data line followed by two more LFs. */
  function Frame(fragment: string): (r: string)
    ensures DataPrefix <= r
    ensures HasSuffix(r, "\n\n\n")
  {
    DataLinesFramed(Pieces(fragment));
    DataLines(Pieces(fragment)) + "\n\n"
  }

  /** The response body written for the fragments taken from the channel, in order. */
  function Stream(fragments: seq<string>): (r: string)
    ensures fragments == [] <==> r == ""
    decreases |fragments|
  {
    if fragments == [] then "" else Frame(fragments[0]) + Stream(fragments[1..])
  }

  lemma {:induction false} DataLinesAppend(ps: seq<string>, p: string)
    ensures DataLines(ps + [p]) == DataLines(ps) + DataPrefix + p + "\n"
    decreases |ps|
  {
    if ps != [] {
      assert (ps + [p])[1..] == ps[1..] + [p];
      DataLinesAppend(ps[1..], p);
    }
  }

  lemma {:induction false} StreamAppend(fs: seq<string>, f: string)
    ensures Stream(fs + [f]) == Stream(fs) + Frame(f)
    decreases |fs|
  {
    if fs == [] {
      assert fs + [f] == [f] && [f][1..] == [];
      assert Stream([f]) == Frame(f) + Stream([]);
      assert Stream(fs) + Frame(f) == Frame(f);
    } else {
      assert (fs + [f])[1..] == fs[1..] + [f];
      StreamAppend(fs[1..], f);
    }
  }

  lemma DataLinesPrefix(ps: seq<string>, i: nat)
    requires i < |ps|
    ensures DataLines(ps[..i + 1]) == DataLines(ps[..i]) + DataPrefix + ps[i] + "\n"
  {
    assert ps[..i + 1] == ps[..i] + [ps[i]];
    DataLinesAppend(ps[..i], ps[i]);
  }

  lemma StreamPrefix(fs: seq<string>, i: nat)
    requires i < |fs|
    ensures Stream(fs[..i + 1]) == Stream(fs[..i]) + Frame(fs[i])
  {
    assert fs[..i + 1] == fs[..i] + [fs[i]];
    StreamAppend(fs[..i], fs[i]);
  }

  /** The inner loop of the writer: one `data:` line per piece, then `"\n\n"`. */
  method WriteFrame(fragment: string) returns (out: string)
    ensures out == Frame(fragment)
  {
    var pieces := Split(TrimSuffix(fragment, "\n"), '\n');
    out := "";
    for i := 0 to |pieces|
      invariant out == DataLines(pieces[..i])
    {
      DataLinesPrefix(pieces, i);
      out := out + DataPrefix + pieces[i] + "\n";
    }
    assert pieces[..|pieces|] == pieces;
    out := out + "\n\n";
  }

  /** The writer goroutine: frames every fragment received from the channel, in
      the order received. */
  method WriteStream(channel: seq<string>) returns (body: string)
    ensures body == Stream(channel)
  {
    body := "";
    for i := 0 to |channel|
      invariant body == Stream(channel[..i])
    {
      var frame := WriteFrame(channel[i]);
      StreamPrefix(channel, i);
      body := body + frame;
    }
    assert channel[..|channel|] == channel;
  }

  /** The data lines followed by the two closing LFs start with a data line and
      end with three LFs. */
  lemma DataLinesFramed(ps: seq<string>)
    requires ps != []
    ensures DataPrefix <= DataLines(ps) + "\n\n"
    ensures HasSuffix(DataLines(ps) + "\n\n", "\n\n\n")
  {
    var lines := DataLines(ps);
    DataLinesShape(ps);
    assert (lines + "\n\n")[|lines| - 1..] == [lines[|lines| - 1]] + "\n\n";
  }

  lemma {:induction false} DataLinesShape(ps: seq<string>)
    requires ps != []
    ensures DataPrefix <= DataLines(ps)
    ensures DataLines(ps)[|DataLines(ps)| - 1] == '\n'
    decreases |ps|
  {
    if |ps| > 1 {
      DataLinesShape(ps[1..]);
    }
  }

  /** Concrete cases: exactly one trailing newline is trimmed, and an empty
      fragment still yields one (empty) data line. */
  lemma PiecesExamples()
    ensures Pieces("a\n\n") == ["a", ""]
    ensures Pieces("a\n") == ["a"]
    ensures Pieces("") == [""]
    ensures Frame("") == "data: \n\n\n"
  {
    assert TrimSuffix("a\n\n", "\n") == "a\n";
    assert "a\n"[1..] == "\n" && "\n"[1..] == "";
    assert Split("\n", '\n') == ["", ""];
    assert "a\n"[0] == 'a' && ['a'] + "" == "a";
    assert Split("a\n", '\n') == ["a", ""];
    assert TrimSuffix("a\n", "\n") == "a";
  }

  /** Exactly one trailing newline is trimmed before splitting: a fragment that is
      `m` followed by a newline has the pieces of `m` itself. */
  lemma PiecesTrimOnce(m: string)
    ensures Pieces(m + "\n") == Split(m, '\n')
  {
    TrimSuffixOnce(m, "\n");
  }

  /** One data line per newline of the trimmed fragment, plus one. */
  lemma PiecesCount(fragment: string)
    ensures |Pieces(fragment)| == multiset(TrimSuffix(fragment, "\n"))['\n'] + 1
  {
    SplitCount(TrimSuffix(fragment, "\n"), '\n');
  }

  /** The data-line payloads joined with newlines give back the trimmed fragment. */
  lemma PiecesJoin(fragment: string)
    ensures Join(Pieces(fragment), '\n') == TrimSuffix(fragment, "\n")
  {
    JoinSplit(TrimSuffix(fragment, "\n"), '\n');
  }

  // ---------------------------------------------------------------------------
  // Reading

  /** The text of a sequence of lines, each terminated by LF. */
  function Unlines(ls: seq<string>): string
    decreases |ls|
  {
    if ls == [] then "" else ls[0] + "\n" + Unlines(ls[1..])
  }

  /** The complete lines of a stream: the text before each LF. What follows the
      last LF is an unterminated line, which the reader discards. */
  function Lines(s: string): seq<string> {
    var parts := Split(s, '\n');
    parts[..|parts| - 1]
  }

  function StripLeadingSpace(v: string): string {
    if |v| > 0 && v[0] == ' ' then v[1..] else v
  }

  /** The value of a `data` field line, or None for any other line. The field name
      is the text before the first colon (the whole line if it has none) and one
      space after the colon is dropped from the value. */
  function DataValue(line: string): Option<string> {
    if line == "data" then Some("")
    else if "data:" <= line then Some(StripLeadingSpace(line[5..]))
    else None
  }

  /** The events dispatched by the lines, given the data buffer so far. */
  function Dispatch(lines: seq<string>, data: string): seq<string>
    decreases |lines|
  {
    if lines == [] then []
    else if lines[0] == "" then
      if data == "" then Dispatch(lines[1..], "")
      else
        var event := if data[|data| - 1] == '\n' then data[..|data| - 1] else data;
        [event] + Dispatch(lines[1..], "")
    else
      match DataValue(lines[0])
      case Some(v) => Dispatch(lines[1..], data + v + "\n")
      case None => Dispatch(lines[1..], data)
  }

  /** The data of every event a client reads from a stream, in order. */
  function Decode(stream: string): seq<string> {
    Dispatch(Lines(stream), "")
  }

  /** The data a client should read for each fragment: the fragment without its
      trailing newline. */
  function Payloads(fragments: seq<string>): (r: seq<string>)
    ensures |r| == |fragments|
    ensures forall i :: 0 <= i < |r| ==> r[i] == TrimSuffix(fragments[i], "\n")
    decreases |fragments|
  {
    if fragments == [] then [] else [TrimSuffix(fragments[0], "\n")] + Payloads(fragments[1..])
  }

  // The frame as a sequence of lines.

  function FieldLines(ps: seq<string>): seq<string>
    decreases |ps|
  {
    if ps == [] then [] else [DataPrefix + ps[0]] + FieldLines(ps[1..])
  }

  function FrameLines(fragment: string): seq<string> {
    FieldLines(Pieces(fragment)) + ["", ""]
  }

  function StreamLines(fragments: seq<string>): seq<string>
    decreases |fragments|
  {
    if fragments == [] then [] else FrameLines(fragments[0]) + StreamLines(fragments[1..])
  }

  predicate NoNewline(ls: seq<string>) {
    forall i :: 0 <= i < |ls| ==> '\n' !in ls[i]
  }

  lemma {:induction false} UnlinesAppend(a: seq<string>, b: seq<string>)
    ensures Unlines(a + b) == Unlines(a) + Unlines(b)
    decreases |a|
  {
    if a != [] {
      assert (a + b)[1..] == a[1..] + b;
      UnlinesAppend(a[1..], b);
    } else {
      assert a + b == b;
    }
  }

  /** Cutting a stream of LF-terminated, LF-free lines at its LFs gives back the lines. */
  lemma {:induction false} LinesUnlines(ls: seq<string>)
    requires NoNewline(ls)
    ensures Lines(Unlines(ls)) == ls
  {
    SplitUnlines(ls);
  }

  lemma {:induction false} SplitUnlines(ls: seq<string>)
    requires NoNewline(ls)
    ensures Split(Unlines(ls), '\n') == ls + [""]
    decreases |ls|
  {
    if ls != [] {
      var rest := Unlines(ls[1..]);
      assert '\n' !in ls[0];
      assert NoNewline(ls[1..]) by {
        forall i | 0 <= i < |ls[1..]| ensures '\n' !in ls[1..][i] {
          assert ls[1..][i] == ls[i + 1];
        }
      }
      SplitUnlines(ls[1..]);
      assert Unlines(ls) == ls[0] + ['\n'] + rest;
      SplitPiece(ls[0], rest, '\n');
      assert [ls[0]] + (ls[1..] + [""]) == ls + [""];
    }
  }

  lemma {:induction false} DataLinesAsLines(ps: seq<string>)
    ensures DataLines(ps) == Unlines(FieldLines(ps))
    decreases |ps|
  {
    if ps != [] {
      DataLinesAsLines(ps[1..]);
      assert FieldLines(ps)[1..] == FieldLines(ps[1..]);
    }
  }

  lemma {:induction false} StreamAsLines(fs: seq<string>)
    ensures Stream(fs) == Unlines(StreamLines(fs))
    decreases |fs|
  {
    if fs != [] {
      StreamAsLines(fs[1..]);
      DataLinesAsLines(Pieces(fs[0]));
      UnlinesAppend(FieldLines(Pieces(fs[0])), ["", ""]);
      assert Unlines(["", ""]) == "\n\n";
      UnlinesAppend(FrameLines(fs[0]), StreamLines(fs[1..]));
    }
  }

  lemma {:induction false} FieldLinesNoNewline(ps: seq<string>)
    requires NoNewline(ps)
    ensures NoNewline(FieldLines(ps))
    decreases |ps|
  {
    if ps != [] {
      FieldLinesNoNewline(ps[1..]);
      assert '\n' !in DataPrefix;
      var line := DataPrefix + ps[0];
      forall k | 0 <= k < |line| ensures line[k] != '\n' {
        if k >= |DataPrefix| {
          assert line[k] == ps[0][k - |DataPrefix|];
        }
      }
    }
  }

  lemma {:induction false} StreamLinesNoNewline(fs: seq<string>)
    ensures NoNewline(StreamLines(fs))
    decreases |fs|
  {
    if fs != [] {
      StreamLinesNoNewline(fs[1..]);
      FieldLinesNoNewline(Pieces(fs[0]));
    }
  }

  lemma DataValueOfField(p: string)
    ensures DataValue(DataPrefix + p) == Some(p)
  {
    var line := DataPrefix + p;
    assert "data:" <= line;
    assert line[5..] == " " + p;
  }

  /** The data lines of a frame fill the buffer with the pieces, each followed by LF. */
  lemma {:induction false} DispatchFields(ps: seq<string>, tail: seq<string>, data: string)
    ensures Dispatch(FieldLines(ps) + tail, data) == Dispatch(tail, data + Unlines(ps))
    decreases |ps|
  {
    if ps != [] {
      var lines := FieldLines(ps) + tail;
      assert lines[0] == DataPrefix + ps[0] && lines[1..] == FieldLines(ps[1..]) + tail;
      assert |lines[0]| > 0;
      DataValueOfField(ps[0]);
      DispatchFields(ps[1..], tail, data + ps[0] + "\n");
      assert data + ps[0] + "\n" + Unlines(ps[1..]) == data + Unlines(ps);
    } else {
      assert FieldLines(ps) + tail == tail;
      assert data + Unlines(ps) == data;
    }
  }

  lemma {:induction false} UnlinesJoin(ps: seq<string>)
    requires |ps| >= 1
    ensures Unlines(ps) == Join(ps, '\n') + "\n"
    decreases |ps|
  {
    if |ps| > 1 {
      UnlinesJoin(ps[1..]);
    }
  }

  /** A blank line dispatches the non-empty, LF-terminated buffer without its
      final LF; a second blank line then finds the buffer empty and dispatches
      nothing. */
  lemma DispatchBlankLines(data: string, tail: seq<string>)
    requires data != [] && data[|data| - 1] == '\n'
    ensures Dispatch(["", ""] + tail, data) == [data[..|data| - 1]] + Dispatch(tail, "")
  {
    var blank := ["", ""] + tail;
    assert blank[0] == "" && blank[1..] == [""] + tail;
    assert Dispatch(blank, data) == [data[..|data| - 1]] + Dispatch([""] + tail, "");
    assert ([""] + tail)[0] == "" && ([""] + tail)[1..] == tail;
  }

  /** The data lines of a frame leave the trimmed fragment and a LF in the buffer. */
  lemma FrameData(fragment: string)
    ensures Unlines(Pieces(fragment)) == TrimSuffix(fragment, "\n") + "\n"
  {
    UnlinesJoin(Pieces(fragment));
    PiecesJoin(fragment);
  }

  /** A frame dispatches exactly one event, whose data is the trimmed fragment; its
      extra blank line dispatches nothing, so the reader starts afresh after it. */
  lemma DispatchFrame(fragment: string, tail: seq<string>)
    ensures Dispatch(FrameLines(fragment) + tail, "") == [TrimSuffix(fragment, "\n")] + Dispatch(tail, "")
  {
    var ps := Pieces(fragment);
    var data := Unlines(ps);
    var trimmed := TrimSuffix(fragment, "\n");
    var fields := FieldLines(ps);
    assert FrameLines(fragment) == fields + ["", ""];
    assert (fields + ["", ""]) + tail == fields + (["", ""] + tail);
    DispatchFields(ps, ["", ""] + tail, "");
    assert "" + data == data;
    FrameData(fragment);
    assert data[..|data| - 1] == trimmed;
    DispatchBlankLines(data, tail);
  }

  lemma {:induction false} DispatchStream(fs: seq<string>)
    ensures Dispatch(StreamLines(fs), "") == Payloads(fs)
    decreases |fs|
  {
    if fs != [] {
      DispatchStream(fs[1..]);
      DispatchFrame(fs[0], StreamLines(fs[1..]));
    }
  }

  /** Round trip: a client reading the body written for the channel's fragments
      receives one event per fragment, in channel order, whose data is that
      fragment without its trailing newline. Frames never merge. */
  lemma DecodeStream(fragments: seq<string>)
    ensures Decode(Stream(fragments)) == Payloads(fragments)
  {
    StreamAsLines(fragments);
    StreamLinesNoNewline(fragments);
    LinesUnlines(StreamLines(fragments));
    DispatchStream(fragments);
  }
}
