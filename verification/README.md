# embedsrv core, in Dafny

A model of the pure logic inside `tools/embedsrv.py`, the build-time generator that embeds
the rpc2socks service executables into a Python module (`embexe_data.py`) as bz2-compressed,
base64-encoded bytes literals, with each artifact's size and MD5 and the git revision of the tree.

Modelled:

- `bin2python` (module `Embed`, with `Base64`, `Framing`, `Checksum`): the size and MD5 of the
  raw bytes, the optional bz2 step, base64 encoding without a trailing newline (section 4 of
  RFC 4648), and the framing loop that cuts the base64 text into `columns`-wide slices, writes
  each as `prefix + b'b"' + slice + b'"'`, and joins the lines with `sep`. Empty text becomes
  the single line `prefix + b'b""'`.
- the string rules of `get_git_info` (module `GitInfo`): `lstrip` of the first output line,
  the dirty-suffix test and strip, and the full match of the revision against
  `^([a-h\d]{40})$` under `re.A`.
- the `GIT_COMMIT` value of `generate_python_script` (module `Render`).

Modelling choices:

- Bytes are integers `0 <= x < 256` (`Common.byte`). Python `str` is Dafny `string`.
- MD5 and bz2 are library calls. `Embed.Bin2Python` takes them as function parameters
  (`md5: seq<byte> -> Digest`, `bz2: seq<byte> -> seq<byte>`). The model fixes which bytes
  each is applied to, not what it computes. `hexdigest()` is modelled (`Checksum.HexDigest`).
- Reading the input file becomes the byte sequence itself. Running git becomes two input
  strings: the first line of `git describe` and of `git rev-parse`, already right-stripped.
- Raising `RuntimeError` becomes `Result.Err` carrying the exception message.
- Each operation has an independent partner that its lemmas connect it to:
  - `Base64.Encode` has a strict decoder, `Base64.Decode`.
  - The framing loop `Framing.Frame` has the reference `Framing.FrameSpec` and the parser `Framing.Unframe`.
  - `Checksum.HexDigest` has `Checksum.ParseHex`.
  - `GitInfo.StripDirty` has `GitInfo.GitDescribe`, which is what git prints with `--dirty=<suffix>`.
  - `Render.GitCommitValue` has `Render.ParseGitCommitValue`.
- The loop needs `columns >= 1`. With 0 or less, `offset` never advances and the loop runs
  forever on non-empty text (tools/embedsrv.py:47-52), so `columns >= 1` is a precondition.
- An empty `dirty_suffix` is modelled with Python's slice rules. `endswith("")` is true and
  `describe[0:-0]` is `""`, so the result is dirty with an empty describe string.

Notes on the code as written, which the model follows:

- The revision check is evidently meant to accept 40 lower-case hexadecimal digits, but the
  pattern `[a-h\d]` also admits `g` and `h`. `GitInfo.NonHexRevisionAccepted` exhibits such a
  string, and `GitInfo.HexRevisionAccepted` shows that every real hexadecimal revision
  still passes.
- `main` hard-codes `ignoregit = True`, so `is_git_repo` is always false and `GIT_COMMIT` is
  always `None` when the script runs. The model still covers both branches of the rendering.

## Model

| member | source | states |
|---|---|---|
| `Base64.Encode` | tools/embedsrv.py:39 | The base64 text of n bytes has length 4·⌈n/3⌉. Every character is in the RFC 4648 alphabet or is `=`. It contains no newline (`newline=False`). |
| `Base64.EncodeSextet` | tools/embedsrv.py:39 | Each 6-bit value maps to an alphabet character that decodes back to the same value. |
| `Base64.DecodeEncode` | tools/embedsrv.py:39 | Decoding the base64 text gives back exactly the bytes that were encoded. |
| `Base64.EncodeDecode` | tools/embedsrv.py:39 | Any text the strict decoder accepts is the encoding of the bytes it decodes to. So encoding and strict decoding are mutually inverse. |
| `Base64.EncodeInjective` | tools/embedsrv.py:39 | Two byte strings with the same base64 text are equal. |
| `Framing.Frame` | tools/embedsrv.py:43-55 | The loop as written (the `if pylines:` separator test, the truncating slice, the empty-result fallback) computes the reference framing. Empty text gives exactly `prefix + b'b""'`. |
| `Framing.ChunkCountSpec` | tools/embedsrv.py:47-50 | Slice k starts inside the text iff k < ⌈L/columns⌉. This makes ⌈L/columns⌉ the number of loop iterations. |
| `Framing.ChunksShape` | tools/embedsrv.py:47-52 | Non-empty text of length L gives ⌈L/columns⌉ ≥ 1 slices. Every slice but the last has `columns` bytes. The last has between 1 and `columns` bytes. |
| `Framing.ChunksConcat` | tools/embedsrv.py:43-52 | Laying the slices end to end in order reproduces the base64 text exactly. |
| `Framing.JoinFront` | tools/embedsrv.py:48-50 | A join of two or more lines is the first line, one `sep`, then the join of the rest. |
| `Framing.FrameEnds` | tools/embedsrv.py:47-52 | Framed non-empty text starts with the first slice's line and ends with the last slice's line. No `sep` leads or trails. |
| `Framing.UnframeJoin` | tools/embedsrv.py:48-50 | Parsing `sep`-joined lines of the form `prefix + b'b"' + slice + b'"'` recovers the quote-free slices, in order. |
| `Framing.FrameRoundTrip` | tools/embedsrv.py:43-55 | The framed body always parses back into lines. Empty text gives exactly one line, holding an empty slice. Otherwise it gives ⌈L/columns⌉ lines whose slices reproduce the text. |
| `Checksum.HexDigest` | tools/embedsrv.py:35 | The hex digest has two lower-case hexadecimal digits per digest byte. |
| `Checksum.ParseHexDigest` | tools/embedsrv.py:35 | The hex digest reads back into the digest it was made from. |
| `Embed.Bin2Python` | tools/embedsrv.py:32-57 | The size is the length of the original bytes. The MD5 is the hex digest of the original bytes (32 characters). Neither depends on `compress`. The body frames the base64 of the bz2 output, or of the raw bytes when not compressing. The body always parses back to lines whose text decodes to those bytes. |
| `Embed.ExampleAB` | tools/embedsrv.py:39-52 | Uncompressed `AB` at four columns encodes as `QUI=` and frames as one line, `prefix + b'b"QUI="'`. |
| `GitInfo.LStrip` | tools/embedsrv.py:91-93 | `lstrip()` keeps a suffix of the line. Everything it removes is Python whitespace. What remains does not start with whitespace. |
| `GitInfo.StripDirty` | tools/embedsrv.py:95-99 | With a non-empty suffix, a dirty result plus the suffix is the original describe string (exactly one copy removed). A clean result is the unchanged input, which does not end with the suffix. With an empty suffix the result is dirty and empty (`[0:-0]`). |
| `GitInfo.StripDirtyInvertsDescribe` | tools/embedsrv.py:91-99 | For what `git describe --dirty=<suffix>` prints, the rule recovers the name and the modified flag. This needs a non-empty suffix and a clean name that does not end with the suffix. |
| `GitInfo.FullMatchRevision` | tools/embedsrv.py:104 | The matcher accepts iff the string has exactly 40 characters, each an ASCII digit or a letter `a`–`h`. |
| `GitInfo.GetGitInfo` | tools/embedsrv.py:91-105 | The result succeeds iff the left-stripped revision line matches the pattern, and it then carries that revision and the suffix rule's describe string and dirty flag. Otherwise the error is `malformed git hash from git rev-parse`. |
| `GitInfo.HexRevisionAccepted` | tools/embedsrv.py:104 | Every 40-digit lower-case hexadecimal revision is accepted. |
| `GitInfo.NonHexRevisionAccepted` | tools/embedsrv.py:104 | A 40-character string of `g` is accepted: the class is wider than hexadecimal. |
| `GitInfo.RevisionPatternRejects` | tools/embedsrv.py:104 | An accepted revision with a trailing newline is rejected, and so is one with an upper-case letter. |
| `Render.ParseGitCommitValueInverse` | tools/embedsrv.py:145-149 | `GIT_COMMIT` is never empty. Outside a git repo it reads back as `None`. Inside one it reads back as exactly the quoted revision, followed by the caution comment. |
| `Render.ValidRevisionRoundTrip` | tools/embedsrv.py:145-149 | A revision that passed the pattern check is rendered so that it reads back unchanged. |

## Left out

- Reading the input file and writing the generated module (tools/embedsrv.py:152-180): file I/O. The per-artifact header text is part of that write.
- MD5 and bz2 internals (tools/embedsrv.py:35, 38): foreign library calls, passed in as functions. So no decompression round trip is stated: the decode property stops at the bz2 output.
- `run_and_check_output` (tools/embedsrv.py:60-84): subprocess execution, with Python's `splitlines` and `rstrip` over the output. The model starts from the first output line.
- The UTC timestamp (tools/embedsrv.py:143): the clock.
- `die`, `check_dirs_and_files`, `parse_args`, `main` (tools/embedsrv.py:27-29, 116-139, 183-223): process exit, filesystem checks and argument parsing.
- The module-level path constants (tools/embedsrv.py:18-24).
- The unused `dirty` consumer and the commented-out short-hash and `--ignoregit`/`--ignoredirty` code (tools/embedsrv.py:107-111, 147, 150, 189-195, 204-205): none of it affects output.
- `bin2python` takes a `memoryview` of the base64 bytes and `del`etes the raw data (tools/embedsrv.py:41-43). These only affect memory use, so the model slices the sequence directly.
