/**
 * The line framing loop of `bin2python` (tools/embedsrv.py): the base64 text
 * is cut into slices of `columns` bytes, each slice becomes the Python bytes
 * literal line `prefix + b'b"' + slice + b'"'`, and the lines are joined by
 * `sep`.  Empty text becomes the single line `prefix + b'b""'`.
 *
 * `FrameSpec` is the reference definition, `Frame` is the loop as written,
 * and `Unframe` is a parser that recovers the slices from the framed bytes.
 */
module Framing {
  import opened Common

  /** The double quote `"` that delimits each literal. */
  const Quote: byte := 34
  /** `b"`: the opening of a Python bytes literal. */
  const LineOpen: seq<byte> := [98, 34]
  /** `"`: the closing of a Python bytes literal. */
  const LineClose: seq<byte> := [34]

  /** One physical line of the generated module. */
  function Line(prefix: seq<byte>, chunk: seq<byte>): seq<byte>
  {
    prefix + LineOpen + chunk + LineClose
  }

  /** The number of slices of `columns` bytes needed to cover `len` bytes: the ceiling of `len / columns`. */
  function ChunkCount(len: nat, columns: int): nat
    requires columns >= 1
  {
    (len + columns - 1) / columns
  }

  lemma MulMono(a: int, b: int, c: int)
    requires a <= b && c >= 0
    ensures a * c <= b * c
  {
    assert (b - a) * c >= 0;
  }

  /** Slice `k` starts inside the text exactly when `k` is below the slice count. */
  lemma ChunkCountSpec(len: nat, columns: int, k: nat)
    requires columns >= 1
    ensures k < ChunkCount(len, columns) <==> k * columns < len
  {
    var n := ChunkCount(len, columns);
    var r := (len + columns - 1) % columns;
    assert n * columns + r == len + columns - 1;
    if k < n {
      MulMono(k, n - 1, columns);
      assert (n - 1) * columns == n * columns - columns;
    } else {
      MulMono(n, k, columns);
    }
  }

  /** Slice `k`: `text[k*columns : k*columns + columns]` with Python's truncation at the end. */
  function Chunk(text: seq<byte>, columns: int, k: int): seq<byte>
    requires columns >= 1 && 0 <= k < ChunkCount(|text|, columns)
  {
    ChunkCountSpec(|text|, columns, k);
    text[k * columns .. Min(k * columns + columns, |text|)]
  }

  /** All slices of the text, in order. */
  function Chunks(text: seq<byte>, columns: int): seq<seq<byte>>
    requires columns >= 1
  {
    seq(ChunkCount(|text|, columns), k requires 0 <= k < ChunkCount(|text|, columns) => Chunk(text, columns, k))
  }

  /** One line per slice. */
  function Lines(prefix: seq<byte>, chunks: seq<seq<byte>>): seq<seq<byte>>
  {
    seq(|chunks|, i requires 0 <= i < |chunks| => Line(prefix, chunks[i]))
  }

  /** `sep.join(lines)`. */
  function Join(lines: seq<seq<byte>>, sep: seq<byte>): seq<byte>
  {
    if |lines| == 0 then []
    else if |lines| == 1 then lines[0]
    else Join(lines[..|lines| - 1], sep) + sep + lines[|lines| - 1]
  }

  /** Appending one more line to a join adds the separator only when lines were already there. */
  lemma JoinStep(lines: seq<seq<byte>>, k: nat, sep: seq<byte>)
    requires k < |lines|
    ensures Join(lines[..k + 1], sep) == (if k == 0 then [] else Join(lines[..k], sep) + sep) + lines[k]
  {
    assert lines[..k + 1][..k] == lines[..k];
  }

  /** The framed body `bin2python` returns for the base64 text `text`. */
  function FrameSpec(text: seq<byte>, columns: int, prefix: seq<byte>, sep: seq<byte>): seq<byte>
    requires columns >= 1
  {
    if |text| == 0 then Line(prefix, [])
    else Join(Lines(prefix, Chunks(text, columns)), sep)
  }

  /** One iteration of the framing loop extends the join of the first `k` lines by line `k`. */
  lemma FrameStep(text: seq<byte>, columns: int, prefix: seq<byte>, sep: seq<byte>, k: nat)
    requires columns >= 1 && k * columns < |text|
    ensures var lines := Lines(prefix, Chunks(text, columns));
      && k < |lines|
      && k * columns + columns == (k + 1) * columns
      && Join(lines[..k + 1], sep)
         == (if k == 0 then [] else Join(lines[..k], sep) + sep)
            + (prefix + LineOpen + text[k * columns..Min(k * columns + columns, |text|)] + LineClose)
      && |Join(lines[..k + 1], sep)| > 0
  {
    var lines := Lines(prefix, Chunks(text, columns));
    ChunkCountSpec(|text|, columns, k);
    assert lines[k] == prefix + LineOpen + text[k * columns..Min(k * columns + columns, |text|)] + LineClose;
    JoinStep(lines, k, sep);
  }

  /** When the loop stops, every line has been emitted, and none at all only for empty text. */
  lemma FrameExit(text: seq<byte>, columns: int, prefix: seq<byte>, sep: seq<byte>, k: nat)
    requires columns >= 1 && k * columns >= |text|
    requires k <= |Lines(prefix, Chunks(text, columns))|
    requires k == 0 || (k - 1) * columns < |text|
    ensures var lines := Lines(prefix, Chunks(text, columns));
      && lines[..k] == lines
      && (k == 0 <==> |text| == 0)
  {
    ChunkCountSpec(|text|, columns, k);
    if k > 0 {
      ChunkCountSpec(|text|, columns, k - 1);
    }
  }

  /**
   * The framing loop as written: `offset` advances by `columns`, a separator
   * goes before every line but the first (the `if pylines:` test), and an
   * empty result is replaced by one empty literal.
   */
  method Frame(text: seq<byte>, columns: int, prefix: seq<byte>, sep: seq<byte>) returns (pylines: seq<byte>)
    requires columns >= 1
    ensures pylines == FrameSpec(text, columns, prefix, sep)
    ensures |text| == 0 ==> pylines == prefix + LineOpen + LineClose
  {
    ghost var lines := Lines(prefix, Chunks(text, columns));
    ghost var k := 0;
    var offset := 0;
    pylines := [];
    while offset < |text|
      invariant 0 <= k <= |lines| && offset == k * columns
      invariant k == 0 || (k - 1) * columns < |text|
      invariant pylines == Join(lines[..k], sep)
      invariant |pylines| == 0 <==> k == 0
      decreases |text| - offset
    {
      FrameStep(text, columns, prefix, sep, k);
      if |pylines| > 0 {
        pylines := pylines + sep;
      }
      pylines := pylines + (prefix + LineOpen + text[offset..Min(offset + columns, |text|)] + LineClose);
      offset := offset + columns;
      k := k + 1;
    }
    FrameExit(text, columns, prefix, sep, k);
    if |pylines| == 0 {
      pylines := prefix + LineOpen + LineClose;
    }
  }

  /**
   * For non-empty text of length L there are exactly ceil(L / columns)
   * slices; every slice but the last holds `columns` bytes and the last holds
   * between 1 and `columns`.
   */
  lemma ChunksShape(text: seq<byte>, columns: int)
    requires columns >= 1 && |text| > 0
    ensures var n := |Chunks(text, columns)|;
      && n >= 1
      && (n - 1) * columns < |text| <= n * columns
      && (forall k :: 0 <= k < n - 1 ==> |Chunks(text, columns)[k]| == columns)
      && 1 <= |Chunks(text, columns)[n - 1]| <= columns
  {
    var n := ChunkCount(|text|, columns);
    var cs := Chunks(text, columns);
    ChunkCountSpec(|text|, columns, 0);
    ChunkCountSpec(|text|, columns, n - 1);
    ChunkCountSpec(|text|, columns, n);
    assert (n - 1) * columns + columns == n * columns;
    assert cs[n - 1] == text[(n - 1) * columns .. |text|];
    forall k | 0 <= k < n - 1
      ensures |cs[k]| == columns
    {
      ChunkCountSpec(|text|, columns, k + 1);
      assert k * columns + columns == (k + 1) * columns;
      assert cs[k] == text[k * columns .. k * columns + columns];
    }
  }

  /** The first `k` slices laid end to end are the text up to `k * columns` (or all of it). */
  lemma {:induction false} ChunksPrefixConcat(text: seq<byte>, columns: int, k: nat)
    requires columns >= 1 && k <= ChunkCount(|text|, columns)
    ensures k * columns >= 0
    ensures Concat(Chunks(text, columns)[..k]) == text[..Min(k * columns, |text|)]
  {
    var cs := Chunks(text, columns);
    if k > 0 {
      ChunksPrefixConcat(text, columns, k - 1);
      ChunkCountSpec(|text|, columns, k - 1);
      var a := (k - 1) * columns;
      var b := Min(a + columns, |text|);
      assert a < |text| && a + columns == k * columns;
      assert cs[k - 1] == text[a..b];
      assert cs[..k][..k - 1] == cs[..k - 1];
      assert Concat(cs[..k]) == text[..a] + text[a..b];
      assert text[..b] == text[..a] + text[a..b];
    }
  }

  /** Laying the slices end to end reproduces the text exactly. */
  lemma ChunksConcat(text: seq<byte>, columns: int)
    requires columns >= 1
    ensures Concat(Chunks(text, columns)) == text
  {
    var n := ChunkCount(|text|, columns);
    ChunksPrefixConcat(text, columns, n);
    ChunkCountSpec(|text|, columns, n);
    assert Chunks(text, columns)[..n] == Chunks(text, columns);
  }

  /** A join of two or more lines starts with the first line and a separator. */
  lemma {:induction false} JoinFront(lines: seq<seq<byte>>, sep: seq<byte>)
    requires |lines| >= 2
    ensures Join(lines, sep) == lines[0] + sep + Join(lines[1..], sep)
    decreases |lines|
  {
    var n := |lines|;
    if n == 2 {
      assert lines[..1] == [lines[0]];
      assert lines[1..] == [lines[1]];
    } else {
      JoinFront(lines[..n - 1], sep);
      assert lines[..n - 1][1..] == lines[1..][..n - 2];
      assert lines[..n - 1][0] == lines[0];
    }
  }

  /** A join of at least one line starts with the first line and ends with the last. */
  lemma {:induction false} JoinEnds(lines: seq<seq<byte>>, sep: seq<byte>)
    requires |lines| >= 1
    ensures lines[0] <= Join(lines, sep)
    ensures var j := Join(lines, sep); |lines[|lines| - 1]| <= |j| && j[|j| - |lines[|lines| - 1]|..] == lines[|lines| - 1]
    decreases |lines|
  {
    if |lines| > 1 {
      JoinEnds(lines[..|lines| - 1], sep);
      var j := Join(lines, sep);
      assert j == Join(lines[..|lines| - 1], sep) + sep + lines[|lines| - 1];
    }
  }

  /**
   * Non-empty text frames into output that opens with the first slice's line
   * and closes with the last slice's line: no separator leads or trails.
   */
  lemma FrameEnds(text: seq<byte>, columns: int, prefix: seq<byte>, sep: seq<byte>)
    requires columns >= 1 && |text| > 0
    ensures var out, cs := FrameSpec(text, columns, prefix, sep), Chunks(text, columns);
      && |cs| >= 1
      && Line(prefix, cs[0]) <= out
      && |Line(prefix, cs[|cs| - 1])| <= |out|
      && out[|out| - |Line(prefix, cs[|cs| - 1])|..] == Line(prefix, cs[|cs| - 1])
  {
    ChunksShape(text, columns);
    JoinEnds(Lines(prefix, Chunks(text, columns)), sep);
  }

  /** The index of the first `Quote` in `s`, or `|s|` when there is none. */
  function FindQuote(s: seq<byte>): (i: nat)
    ensures i <= |s| && (i < |s| ==> s[i] == Quote)
    ensures forall j :: 0 <= j < i ==> s[j] != Quote
  {
    if |s| == 0 then 0
    else if s[0] == Quote then 0
    else 1 + FindQuote(s[1..])
  }

  /**
   * Parses framed bytes back into the slices they carry: each line must be
   * `prefix + b'b"'`, a quote-free slice and `"`, and lines must be separated
   * by exactly `sep`.
   */
  function Unframe(out: seq<byte>, prefix: seq<byte>, sep: seq<byte>): (r: Option<seq<seq<byte>>>)
    ensures r.Some? ==> |r.value| >= 1
    ensures r.Some? ==> forall i :: 0 <= i < |r.value| ==> Quote !in r.value[i]
    decreases |out|
  {
    var head := prefix + LineOpen;
    if |out| < |head| || out[..|head|] != head then None
    else
      var body := out[|head|..];
      var q := FindQuote(body);
      if q == |body| then None
      else
        var rest := body[q + 1..];
        if |rest| == 0 then Some([body[..q]])
        else if |rest| < |sep| || rest[..|sep|] != sep then None
        else
          match Unframe(rest[|sep|..], prefix, sep)
          case None => None
          case Some(more) => Some([body[..q]] + more)
  }

  /** Parsing the join of the lines built from quote-free slices gives the slices back. */
  lemma {:induction false} UnframeJoin(chunks: seq<seq<byte>>, prefix: seq<byte>, sep: seq<byte>)
    requires |chunks| >= 1
    requires forall i :: 0 <= i < |chunks| ==> Quote !in chunks[i]
    ensures Unframe(Join(Lines(prefix, chunks), sep), prefix, sep) == Some(chunks)
    decreases |chunks|
  {
    var lines := Lines(prefix, chunks);
    var out := Join(lines, sep);
    var head := prefix + LineOpen;
    var c0 := chunks[0];
    var tail: seq<byte>;
    if |chunks| == 1 {
      tail := [];
    } else {
      JoinFront(lines, sep);
      assert lines[1..] == Lines(prefix, chunks[1..]);
      tail := sep + Join(lines[1..], sep);
    }
    assert out == head + (c0 + LineClose + tail);
    assert out[..|head|] == head;
    var body := out[|head|..];
    assert body == c0 + LineClose + tail;
    var q := FindQuote(body);
    assert body[|c0|] == Quote;
    assert q == |c0|;
    assert body[..q] == c0;
    assert body[q + 1..] == tail;
    if |chunks| > 1 {
      UnframeJoin(chunks[1..], prefix, sep);
      assert |lines[1]| > 0;
      assert |tail| > 0;
      assert tail[..|sep|] == sep && tail[|sep|..] == Join(lines[1..], sep);
      assert chunks == [c0] + chunks[1..];
    } else {
      assert chunks == [c0];
    }
  }

  /**
   * The framed body parses back into its lines: one empty slice for empty
   * text, otherwise the ceil(L / columns) slices of the text, which laid end
   * to end give the text again.
   */
  lemma FrameRoundTrip(text: seq<byte>, columns: int, prefix: seq<byte>, sep: seq<byte>)
    requires columns >= 1 && Quote !in text
    ensures var r := Unframe(FrameSpec(text, columns, prefix, sep), prefix, sep);
      && r == Some(if |text| == 0 then [[]] else Chunks(text, columns))
      && |r.value| == (if |text| == 0 then 1 else ChunkCount(|text|, columns))
      && Concat(r.value) == text
  {
    if |text| == 0 {
      assert Lines(prefix, [[]]) == [Line(prefix, [])];
      UnframeJoin([[]], prefix, sep);
      assert Concat([[]]) == Concat<byte>([]) + [];
    } else {
      var cs := Chunks(text, columns);
      ChunksShape(text, columns);
      forall i | 0 <= i < |cs|
        ensures Quote !in cs[i]
      {
        ChunkCountSpec(|text|, columns, i);
        assert cs[i] == text[i * columns .. Min(i * columns + columns, |text|)];
      }
      UnframeJoin(cs, prefix, sep);
      ChunksConcat(text, columns);
    }
  }
}
