/**
 The `buildText` micro-DSL: a `TextScope` over a `StringBuilder` that starts
 empty, accepts `+string` and `+char` appends and `trimLastNewLine()`, and
 whose content is the string `buildText` returns.

 The builder's content is a `string` (a `seq<char>`); a block passed to
 `buildText` is modelled by the sequence of scope operations it performs.
 */
module TextBuilder {

  /** One operation a block performs on its `TextScope`. */
  datatype Op = Str(s: string) | Chr(c: char) | Trim

  predicate EndsWithNewLine(buffer: string) {
    |buffer| > 0 && buffer[|buffer| - 1] == '\n'
  }

  /** `+s` for a `String`: `s` goes to the end of the buffer, which keeps its content as a prefix. */
  function PlusString(buffer: string, s: string): (r: string)
    ensures |r| == |buffer| + |s|
    ensures r[..|buffer|] == buffer
    ensures r[|buffer|..] == s
  {
    buffer + s
  }

  /** `+c` for a `Char`: `c` becomes the last character; the same as appending the one-character string. */
  function PlusChar(buffer: string, c: char): (r: string)
    ensures |r| == |buffer| + 1
    ensures r[..|buffer|] == buffer
    ensures r[|buffer|] == c
    ensures r == PlusString(buffer, [c])
  {
    buffer + [c]
  }

  /**
   `trimLastNewLine()`: when the buffer is not empty and ends in '\n', that
   one character is deleted; otherwise the buffer is left as it is.
   */
  function TrimLastNewLine(buffer: string): (r: string)
    // what remains is always a prefix, at most one character shorter
    ensures |buffer| - 1 <= |r| <= |buffer|
    ensures r == buffer[..|r|]
    // a change happens exactly when there is a final newline, and it is that newline
    ensures r != buffer <==> EndsWithNewLine(buffer)
    ensures EndsWithNewLine(buffer) ==> PlusChar(r, '\n') == buffer
  {
    if |buffer| > 0 && buffer[|buffer| - 1] == '\n' then buffer[..|buffer| - 1] else buffer
  }

  function Step(buffer: string, op: Op): string {
    match op
    case Str(s) => PlusString(buffer, s)
    case Chr(c) => PlusChar(buffer, c)
    case Trim => TrimLastNewLine(buffer)
  }

  /** The buffer after performing `ops`, in order, on a scope whose buffer holds `buffer`. */
  function Apply(buffer: string, ops: seq<Op>): string
    decreases |ops|
  {
    if |ops| == 0 then buffer else Apply(Step(buffer, ops[0]), ops[1..])
  }

  predicate AppendsOnly(ops: seq<Op>) {
    forall i :: 0 <= i < |ops| ==> !ops[i].Trim?
  }

  /** The fragments of a block that only appends, concatenated in order. */
  function Fragments(ops: seq<Op>): string
    requires AppendsOnly(ops)
    decreases |ops|
  {
    if |ops| == 0 then []
    else (match ops[0] case Str(s) => s case Chr(c) => [c]) + Fragments(ops[1..])
  }

  /** Performing `x` then `y` is performing `x + y`: a block is a sequence of independent steps. */
  lemma {:induction false} ApplyConcat(buffer: string, x: seq<Op>, y: seq<Op>)
    ensures Apply(buffer, x + y) == Apply(Apply(buffer, x), y)
    decreases |x|
  {
    if |x| == 0 {
      assert x + y == y;
    } else {
      assert (x + y)[0] == x[0];
      assert (x + y)[1..] == x[1..] + y;
      ApplyConcat(Step(buffer, x[0]), x[1..], y);
    }
  }

  /** A block that only appends leaves the buffer followed by its fragments in order. */
  lemma {:induction false} AppendsConcatenate(buffer: string, ops: seq<Op>)
    requires AppendsOnly(ops)
    ensures Apply(buffer, ops) == buffer + Fragments(ops)
    decreases |ops|
  {
    if |ops| > 0 {
      assert AppendsOnly(ops[1..]) by {
        forall i | 0 <= i < |ops[1..]| ensures !ops[1..][i].Trim? {
          assert ops[1..][i] == ops[i + 1];
        }
      }
      AppendsConcatenate(Step(buffer, ops[0]), ops[1..]);
      assert !ops[0].Trim?;
    }
  }

  /** Trimming after appending '\n' gives back the buffer: append and trim are inverse on a final newline. */
  lemma TrimUndoesNewLine(buffer: string)
    ensures TrimLastNewLine(PlusChar(buffer, '\n')) == buffer
  {
  }

  /** Only the final newline goes: a buffer ending in two newlines keeps the first. */
  lemma TrimRemovesOneNewLine(buffer: string)
    ensures TrimLastNewLine(buffer + "\n\n") == buffer + "\n"
    ensures TrimLastNewLine(TrimLastNewLine(buffer + "\n\n")) == buffer
  {
  }

  /** A carriage return is never trimmed: "\r" stays, and "\r\n" loses only its '\n'. */
  lemma TrimKeepsCarriageReturn(buffer: string)
    ensures TrimLastNewLine(buffer + "\r") == buffer + "\r"
    ensures TrimLastNewLine(buffer + "\r\n") == buffer + "\r"
  {
  }

  /**
   `buildText(block)`: a fresh, empty builder, the block's operations
   performed on it in order, and the builder's content returned.
   */
  method BuildText(block: seq<Op>) returns (text: string)
    ensures text == Apply([], block)
    ensures AppendsOnly(block) ==> text == Fragments(block)
    ensures block == [] ==> text == ""
  {
    var builder: string := [];
    for i := 0 to |block|
      invariant builder == Apply([], block[..i])
    {
      ApplyConcat([], block[..i], [block[i]]);
      assert block[..i + 1] == block[..i] + [block[i]];
      builder := Step(builder, block[i]);
    }
    assert block[..|block|] == block;
    if AppendsOnly(block) {
      AppendsConcatenate([], block);
    }
    text := builder;
  }

  /** The block `+"line1\n"; +"line2\n"; trimLastNewLine()` builds "line1\nline2". */
  lemma TrimAfterAppendsScenario()
    ensures Apply([], [Str("line1\n"), Str("line2\n"), Trim]) == "line1\nline2"
  {
  }
}
