# xemantic-kotlin-core: scoped closing and the text builder, in Dafny

This project models two small utilities of the Kotlin library xemantic-kotlin-core.

- `SuspendCloseable.use`: runs a block on a nullable resource and then always closes the resource through `closeFinally`. The module `SuspendCloseable` (`suspend_closeable.dfy`) models this.
  - A `Throwable` is a value `Exc(kind, message, suppressed)`.
  - The block and `close()` are given by the outcome each one produces: it returns or it throws.
  - `use` is written the way the source writes it, as `try`/`catch`/`finally` around `closeFinally`. An exception thrown from `finally` replaces the one in flight. `addSuppressed` produces the updated throwable, and that throwable is the one that propagates.
  - `use` also returns the trace of calls it made, so the contract can state "block exactly once, `close()` at most once and only after the block".
  - The precedence between block and `close()` failures is proved from this model. It is not assumed.
- `buildText` with its `TextScope`: the module `TextBuilder` (`text_builder.dfy`) models this.
  - The builder's content is a `string`.
  - A block is the sequence of scope operations it performs: `+String`, `+Char`, `trimLastNewLine()`.
  - `buildText` is a method. It starts from an empty builder, applies the operations in order and returns the content.

## Model

| member | source | states |
|---|---|---|
| SuspendCloseable.AddSuppressed | src/commonMain/kotlin/SuspendCloseable.kt:94-98 | Adding a suppressed throwable keeps the primary's class, message and earlier suppressed entries as a prefix. It appends exactly one entry, the close failure, at the end. |
| SuspendCloseable.CloseFinally | src/commonMain/kotlin/SuspendCloseable.kt:89-99 | `close()` is called iff the receiver is non-null. With no cause, a close failure escapes. With a cause, nothing escapes. The cause is then unchanged if `close()` succeeded, or gains the close failure as its last suppressed entry. |
| SuspendCloseable.Use | src/commonMain/kotlin/SuspendCloseable.kt:63-78 | The block runs exactly once. `close()` runs once for a non-null resource and never for null. The block never runs after `close()`, and the resource is closed when `use` returns. The failure-precedence rules: a null resource gives the block's outcome unchanged; block and close both succeed gives the block's value; block throws and close succeeds gives the block's throwable with suppressed list untouched; both throw gives the block's throwable with the close failure appended; block succeeds and close throws gives the close failure alone. |
| SuspendCloseable.BlockFailureTakesPrecedence | src/commonMain/kotlin/SuspendCloseable.kt:69-98 | When the block throws, the caller sees the block's throwable (possibly extended) and never the close failure itself. A close failure is then the last suppressed entry, and exactly one entry is added. |
| SuspendCloseable.NoFailureIsLost | src/commonMain/kotlin/SuspendCloseable.kt:69-98 | `use` throws iff the block or `close()` threw. A close failure is either the thrown throwable or the last suppressed entry of it. |
| SuspendCloseable.BothFailScenario | src/commonTest/kotlin/SuspendCloseableTest.kt:104-123 | In the test scenario, block `IllegalArgumentException("Block exception")` and close `IllegalStateException("Close failed")` give the block's exception with exactly one suppressed `IllegalStateException("Close failed")`. |
| TextBuilder.PlusString | src/commonMain/kotlin/text/TextBuilder.kt:44-46 | `+s` keeps the buffer as a prefix and puts exactly `s` after it. |
| TextBuilder.PlusChar | src/commonMain/kotlin/text/TextBuilder.kt:48-50 | `+c` keeps the buffer as a prefix and makes `c` the one new, last character. This is the same as appending the one-character string. |
| TextBuilder.TrimLastNewLine | src/commonMain/kotlin/text/TextBuilder.kt:52-56 | The result is a prefix of the buffer, at most one character shorter. It differs from the buffer iff the buffer ends in '\n', and then appending '\n' to it restores the buffer. |
| TextBuilder.TrimUndoesNewLine | src/commonMain/kotlin/text/TextBuilder.kt:52-56 | Trimming after appending '\n' returns the original buffer. |
| TextBuilder.TrimRemovesOneNewLine | src/commonMain/kotlin/text/TextBuilder.kt:52-56 | Only the final newline is removed: `b + "\n\n"` becomes `b + "\n"`, and a second trim is needed to reach `b`. |
| TextBuilder.TrimKeepsCarriageReturn | src/commonMain/kotlin/text/TextBuilder.kt:52-56 | A trailing '\r' is never removed, and `"\r\n"` loses only its '\n'. |
| TextBuilder.ApplyConcat | src/commonMain/kotlin/text/TextBuilder.kt:44-56 | Scope operations compose: performing `x` then `y` on a buffer equals performing `x + y`. |
| TextBuilder.AppendsConcatenate | src/commonMain/kotlin/text/TextBuilder.kt:44-50 | A block of string and char appends turns buffer `b` into `b` followed by its fragments concatenated in order. |
| TextBuilder.BuildText | src/commonMain/kotlin/text/TextBuilder.kt:26-36 | Starting from an empty builder, the result is the block's operations applied in order. An empty block gives "". A block that only appends gives the in-order concatenation of its fragments. |
| TextBuilder.TrimAfterAppendsScenario | src/commonTest/kotlin/text/TextBuilderTest.kt:118-125 | `+"line1\n"; +"line2\n"; trimLastNewLine()` builds "line1\nline2". |

## Left out

- Coroutine suspension, `delay` and cancellation are left out. They do not change how `use` decides the outcome, and the code does not pin down how cancellation interacts with suppression.
- The `contract { callsInPlace(..., EXACTLY_ONCE) }` declarations in `use` and `buildText` are left out because they are compiler machinery. For `use`, the call trace states exactly-once instead. For `buildText`, the block is a sequence of operations performed once, in order.
- The platform rules of `Throwable.addSuppressed` are left out, for example that a throwable cannot suppress itself. Adding a suppressed throwable is modelled as appending to the list.
- The block receives the resource value, but nothing the block does to the resource is modelled. Side effects of the resource, such as a `closed` flag, are represented only by the `CloseInvoked` event in the trace. Idempotence of `close()` is a recommendation to implementers. `use` never calls `close()` twice, so it is not modelled.
- Throwable identity is left out. Throwables are values, so "the same throwable" means equal class, message and suppressed list.
- TextBuilder.PlusString / TextBuilder.PlusChar: the builder's content is modelled as a sequence of Dafny characters. Dafny characters are Unicode scalar values, while a Kotlin `Char` is one UTF-16 code unit. So a lone surrogate, such as one half of a pair appended with two `+Char` calls, cannot be expressed. Lengths in these contracts count scalar values, not UTF-16 units: "😀" counts as 1 here and as 2 in the Kotlin builder. `trimLastNewLine` is not affected, because '\n' is a single code unit in both.
- TextBuilder.BuildText: a block that throws is not modelled. `buildText` does not catch, so such a block's exception propagates and no text is returned. Otherwise a sequence of scope operations models a block exactly. The builder is an internal field, so a block cannot read the buffer, and its operations cannot depend on the buffer's contents.
- `InstantSerializer` is not part of this model. It wraps time parsing and serialization encoders that are not visible.
- `lineFlow`, `Flow.joinToString` and `mapLast` are not part of this model. Their implementations are not available.
