/**
 * `pipe_write` (src/main.rs:212-246): read lines from standard input, stop at
 * the first line that is exactly `q`, append the encoding of every line that
 * parses, and complain once about every line that does not.
 *
 * Standard input is the sequence of lines it delivers; the output file and
 * the error stream are the byte and message sequences the method returns. The
 * type's text parser (`str::parse`) is a parameter: for the integer types it
 * is `Decimal.ParseInt`; for `f32`/`f64` it is left abstract.
 */
module Writer {
  import opened Wrappers
  import opened Bytes
  import opened Codec

  /** The line that ends the session. */
  const Quit: string := "q"

  /** The message written to the error stream for a line that does not parse. */
  function Diagnostic(line: string): string {
    "'" + line + "' is not a valid input"
  }

  /** `parse` behaves as `str::parse` for the type: every value it yields fits the type. */
  ghost predicate Parses(t: Tag, parse: string -> Option<int>) {
    forall s :: parse(s).Some? ==> InRange(t, parse(s).value)
  }

  /**
   * The lines the loop consumes: everything before the first `q`. The `q`
   * itself and every line after it are never looked at.
   */
  function Session(lines: seq<string>): (s: seq<string>)
    ensures |s| <= |lines| && s == lines[..|s|]
    ensures Quit !in s
    ensures |s| < |lines| ==> lines[|s|] == Quit
  {
    if lines == [] || lines[0] == Quit then [] else [lines[0]] + Session(lines[1..])
  }

  /** The values of the lines that parse, in input order. */
  function Accepted(parse: string -> Option<int>, lines: seq<string>): seq<int> {
    if lines == [] then []
    else (if parse(lines[0]).Some? then [parse(lines[0]).value] else []) + Accepted(parse, lines[1..])
  }

  /** One diagnostic per line that does not parse, in input order. */
  function Rejected(parse: string -> Option<int>, lines: seq<string>): seq<string> {
    if lines == [] then []
    else (if parse(lines[0]).None? then [Diagnostic(lines[0])] else []) + Rejected(parse, lines[1..])
  }

  /** Only values of the type are ever accepted. */
  lemma {:induction false} AcceptedInRange(t: Tag, parse: string -> Option<int>, lines: seq<string>)
    requires Parses(t, parse)
    ensures AllInRange(t, Accepted(parse, lines))
  {
    if lines != [] {
      AcceptedInRange(t, parse, lines[1..]);
    }
  }

  /** What one more consumed line adds to the accepted values and the diagnostics. */
  lemma {:induction false} ConsumeLine(parse: string -> Option<int>, lines: seq<string>, l: string)
    ensures Accepted(parse, lines + [l])
         == Accepted(parse, lines) + (if parse(l).Some? then [parse(l).value] else [])
    ensures Rejected(parse, lines + [l])
         == Rejected(parse, lines) + (if parse(l).None? then [Diagnostic(l)] else [])
  {
    if lines != [] {
      assert (lines + [l])[1..] == lines[1..] + [l];
      ConsumeLine(parse, lines[1..], l);
    } else {
      assert [l][1..] == [];
    }
  }

  /** What one more consumed line adds to the output file. */
  lemma WriteLine(t: Tag, parse: string -> Option<int>, done: seq<string>, l: string)
    requires Parses(t, parse)
    ensures AllInRange(t, Accepted(parse, done)) && AllInRange(t, Accepted(parse, done + [l]))
    ensures EncodeAll(t, Accepted(parse, done + [l]))
         == EncodeAll(t, Accepted(parse, done)) + (if parse(l).Some? then Encode(t, parse(l).value) else [])
  {
    ConsumeLine(parse, done, l);
    AcceptedInRange(t, parse, done);
    AcceptedInRange(t, parse, done + [l]);
    if parse(l).Some? {
      EncodeAllAppend(t, Accepted(parse, done), parse(l).value);
    } else {
      assert Accepted(parse, done + [l]) == Accepted(parse, done);
    }
  }

  /**
   * The write loop. The output is the encoding, in order, of the values of
   * the lines before the first `q` that parse; the error stream holds one
   * diagnostic per such line that does not parse.
   */
  method PipeWrite(t: Tag, parse: string -> Option<int>, lines: seq<string>)
    returns (out: seq<byte>, errors: seq<string>)
    requires Parses(t, parse)
    ensures AllInRange(t, Accepted(parse, Session(lines)))
    ensures out == EncodeAll(t, Accepted(parse, Session(lines)))
    ensures errors == Rejected(parse, Session(lines))
  {
    out, errors := [], [];
    var i := 0;
    ghost var seen: seq<string> := [];
    while i < |lines|
      invariant i <= |lines| && seen == lines[..i] && Quit !in seen
      invariant AllInRange(t, Accepted(parse, seen))
      invariant out == EncodeAll(t, Accepted(parse, seen))
      invariant errors == Rejected(parse, seen)
    {
      var l := lines[i];
      if l == Quit {
        break;
      }
      WriteLine(t, parse, seen, l);
      ConsumeLine(parse, seen, l);
      match parse(l) {
        case Some(x) => out := out + Encode(t, x);
        case None => errors := errors + [Diagnostic(l)];
      }
      TakeOneMore(lines, i);
      seen, i := seen + [l], i + 1;
    }
    assert Session(lines) == seen;
  }

  /** The first `i + 1` lines are the first `i` and then line `i`. */
  lemma TakeOneMore(lines: seq<string>, i: nat)
    requires i < |lines|
    ensures lines[..i + 1] == lines[..i] + [lines[i]]
  {
  }
}
