/**
 * What the two operations promise together: a file written by `write` reads
 * back, with `read`, as exactly the values that were accepted; and for the
 * integer types, the text `read` prints, fed to `write`, rebuilds the file
 * byte for byte.
 */
module Pipeline {
  import opened Wrappers
  import opened Bytes
  import opened Codec
  import opened Decimal
  import opened Writer
  import opened Reader

  /** `str::parse` for an integer type, as the parser `write` is given. */
  function IntParser(t: Tag): (parse: string -> Option<int>)
    requires !t.IsFloat()
    ensures Parses(t, parse)
  {
    s => ParseInt(t, s)
  }

  /** A whole number of chunks: `n` values of `w` bytes. */
  lemma WholeChunks(n: nat, w: nat)
    requires w > 0
    ensures (n * w) % w == 0
  {
    DivUnique(n * w, w, n, 0);
  }

  /**
   * Reading back a file that `write` produced prints the accepted values in
   * input order, when every read fills the buffer; the corrected reader
   * prints the same.
   */
  lemma WriteThenRead(t: Tag, parse: string -> Option<int>, lines: seq<string>, sizes: seq<nat>)
    requires Parses(t, parse) && FullReads(Width(t), sizes)
    ensures AllInRange(t, Accepted(parse, Session(lines)))
    ensures var file := EncodeAll(t, Accepted(parse, Session(lines)));
            Printed(t, file, sizes, 0, 0, Zeros(Width(t))) == Accepted(parse, Session(lines))
            && PrintedChecked(t, file, sizes, 0, 0) == Accepted(parse, Session(lines))
  {
    var vs := Accepted(parse, Session(lines));
    AcceptedInRange(t, parse, Session(lines));
    var file := EncodeAll(t, vs);
    EncodeAllLength(t, vs);
    WholeChunks(|vs|, Width(t));
    assert file[0..] == file;
    PrintedWholeChunks(t, file, sizes, 0, 0, Zeros(Width(t)));
    CheckedFullReads(t, file, sizes, 0, 0);
    DecodeAllEncodeAll(t, vs);
  }

  /** The lines `read` prints for a sequence of integer values. */
  function RenderAll(vs: seq<int>): (lines: seq<string>)
    ensures |lines| == |vs|
  {
    if vs == [] then [] else [Render(vs[0])] + RenderAll(vs[1..])
  }

  /** No printed number is the line `q`, so a session of printed numbers runs to its end. */
  lemma {:induction false} RenderedSession(vs: seq<int>)
    ensures Session(RenderAll(vs)) == RenderAll(vs)
  {
    if vs != [] {
      var s := Render(vs[0]);
      assert s != Quit by {
        if |s| == 1 {
          assert IsDigit(s[0]);
        }
      }
      RenderedSession(vs[1..]);
    }
  }

  /** Every printed integer parses back to itself, so every line is accepted. */
  lemma {:induction false} RenderedAccepted(t: Tag, vs: seq<int>)
    requires !t.IsFloat() && AllInRange(t, vs)
    ensures Accepted(IntParser(t), RenderAll(vs)) == vs
    ensures Rejected(IntParser(t), RenderAll(vs)) == []
  {
    if vs != [] {
      ParseRender(t, vs[0]);
      RenderedAccepted(t, vs[1..]);
    }
  }

  /**
   * For an integer type, the lines `read` prints for a file of whole chunks
   * when every read fills the buffer, fed to `write`, rebuild the same file
   * with no diagnostics.
   */
  lemma ReadThenWrite(t: Tag, file: seq<byte>, sizes: seq<nat>)
    requires !t.IsFloat() && |file| % Width(t) == 0 && FullReads(Width(t), sizes)
    ensures var lines := RenderAll(Printed(t, file, sizes, 0, 0, Zeros(Width(t))));
            && AllInRange(t, Accepted(IntParser(t), Session(lines)))
            && EncodeAll(t, Accepted(IntParser(t), Session(lines))) == file
            && Rejected(IntParser(t), Session(lines)) == []
  {
    var vs := DecodeAll(t, file);
    assert file[0..] == file;
    PrintedWholeChunks(t, file, sizes, 0, 0, Zeros(Width(t)));
    DecodeAllInRange(t, file);
    RenderedSession(vs);
    RenderedAccepted(t, vs);
    EncodeAllDecodeAll(t, file);
  }

  /** A session that starts with `q` writes nothing. */
  lemma QuitFirst(t: Tag, parse: string -> Option<int>, rest: seq<string>)
    ensures Session([Quit] + rest) == []
    ensures Accepted(parse, Session([Quit] + rest)) == []
    ensures Rejected(parse, Session([Quit] + rest)) == []
  {
  }

  /** Lines after the first `q` are never read: whatever follows it, the session is the same. */
  lemma {:induction false} QuitEndsSession(before: seq<string>, after: seq<string>)
    requires Quit !in before
    ensures Session(before + [Quit] + after) == before
  {
    if before != [] {
      assert (before + [Quit] + after)[1..] == before[1..] + [Quit] + after;
      QuitEndsSession(before[1..], after);
    }
  }

  /** The lines of the write examples, as the integer parser reads them. */
  lemma ExampleLines()
    ensures ParseInt(U8, "1") == Some(1) && ParseInt(U8, "2") == Some(2)
    ensures ParseInt(I32, "5") == Some(5) && ParseInt(I32, "abc") == None
  {
    assert "1"[..0] == "" && "2"[..0] == "" && "5"[..0] == "";
    assert !IsDigit('a');
  }

  /** Writing `1`, `2`, `q` as `u8` gives the two bytes 1 and 2. */
  lemma WriteU8Example()
    ensures EncodeAll(U8, Accepted(IntParser(U8), Session(["1", "2", "q"]))) == [0x01, 0x02]
  {
    ExampleLines();
    assert Session(["1", "2", "q"]) == ["1", "2"];
    assert Accepted(IntParser(U8), ["1", "2"]) == [1, 2];
  }

  /** Writing `abc`, `5`, `q`, `7` as `i32` writes 5 only and complains about `abc` only. */
  lemma WriteInvalidExample()
    ensures Accepted(IntParser(I32), Session(["abc", "5", "q", "7"])) == [5]
    ensures Rejected(IntParser(I32), Session(["abc", "5", "q", "7"])) == [Diagnostic("abc")]
  {
    ExampleLines();
    assert Session(["abc", "5", "q", "7"]) == ["abc", "5"];
  }

  /** The diagnostic for the line `abc`. */
  lemma DiagnosticExample()
    ensures Diagnostic("abc") == "'abc' is not a valid input"
  {
  }
}
