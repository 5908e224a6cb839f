# merge_subs in Dafny

A model of `scripts/merge_subs.py`, a script that merges proxy-node subscriptions.

- **Input.** The script reads a list of subscription URLs from `sources.txt`. Blank lines and `#` comments are skipped.
- **Per source.** It fetches each URL in order. When the body looks like a base64 bundle, it decodes it. A decoded text is used only if it mentions a node scheme; otherwise the raw body is used.
- **Extraction.** From the chosen text it keeps the stripped lines that start with one of the eight node schemes (`vless://`, `vmess://`, `trojan://`, `ss://`, `ssr://`, `hysteria://`, `hysteria2://`, `tuic://`).
- **Dedupe.** It removes duplicate nodes and keeps each node's first occurrence.
- **Output.** It writes `nodes.txt`, the nodes one per line, and `sub.txt`, the base64 encoding of `nodes.txt` plus a newline.

The project has six modules:

- `Wrappers` is `Option`.
- `Bytes` is the octet type.
- `PyStr` holds the Python `str` operations the script uses:
  - `strip`, `split`, `splitlines`, `join`, `startswith`, `in` and `replace`;
  - the whitespace set is the one CPython's `str.isspace` accepts;
  - the line-break set is the one `str.splitlines` splits on, with `\r\n` counted as one break.
- `Sequences` holds filtering, subsequences, first indices and first-occurrence deduplication.
- `Base64` is the standard alphabet of section 4 of RFC 4648: the encoder and a strict decoder, proved inverse in both directions.
- `Utf8` is the encoder of RFC 3629 and a strict decoder, proved inverse in both directions.
- `MergeSubs` is the script itself.

Two things the script does are passed in as functions:

- `fetch: string -> Option<string>` is `fetch_text(url)`. `None` stands for the exception path.
- `b64decode: string -> Option<string>` is `base64.b64decode(x).decode("utf-8", errors="ignore")`. `None` stands for a raised exception.

Only what the script does with the results of these two functions is modelled.

## Model

| member | source | states |
|---|---|---|
| MergeSubs.StartsWithAnyIff | scripts/merge_subs.py:44 | `startswith` with the prefix tuple holds exactly when one of the prefixes is a prefix of the line |
| MergeSubs.ContainsAnyIff | scripts/merge_subs.py:24 | the `any(p in text ...)` scan holds exactly when some prefix occurs at some index of the text |
| MergeSubs.FullMatchGateClassIff | scripts/merge_subs.py:18 | `re.fullmatch` of `[A-Za-z0-9+/=\s]+` succeeds exactly on non-empty strings made only of class characters |
| MergeSubs.IsProbablyBase64 | scripts/merge_subs.py:14-18 | false whenever the stripped input is shorter than 40 characters; otherwise true exactly when every character of the stripped input is a letter, digit, `+`, `/`, `=` or whitespace |
| MergeSubs.TryB64DecodeToText | scripts/merge_subs.py:20-28 | decoding is given the stripped input followed by `===`. A text is returned only when decoding succeeds and some node scheme occurs in the text. It is `None` when decoding fails or no scheme occurs |
| MergeSubs.SelectText | scripts/merge_subs.py:58-62 | the decoded text is scanned when the gate passes, decoding succeeds and the text mentions a scheme. Any result other than the raw body has all three conditions behind it |
| MergeSubs.StripPartsOnePhysicalLine | scripts/merge_subs.py:39 | after `\r` is rewritten to `\n`, splitting at `\n` and stripping leaves trimmed lines with no `\r` or `\n` |
| MergeSubs.TrimmedLines | scripts/merge_subs.py:39 | every line `extract_nodes` inspects is trimmed and holds no `\r` or `\n` |
| MergeSubs.NodeLines | scripts/merge_subs.py:41-46 | the loop keeps only non-empty lines that start with a scheme. The kept lines are an order-preserving subsequence of the lines, and no line that starts with a scheme is dropped |
| MergeSubs.NodeLinesCount | scripts/merge_subs.py:41-46 | each non-empty prefixed line appears among the nodes exactly as often as among the lines; any other line never appears |
| MergeSubs.ExtractNodes | scripts/merge_subs.py:38-46 | every node `extract_nodes` returns is non-empty and trimmed, holds no `\r` or `\n`, and starts with a scheme |
| MergeSubs.ExtractNodesScan | scripts/merge_subs.py:38-46 | the nodes are an order-preserving subsequence of the stripped lines of the text, and no stripped line that starts with a scheme is dropped |
| MergeSubs.StrippedLines | scripts/merge_subs.py:50 | the `splitlines` lines of the source file, each stripped |
| MergeSubs.SourceEntries | scripts/merge_subs.py:50 | the comprehension's filter keeps only non-empty lines that do not start with `#`. The kept lines keep their order, and no such line is dropped |
| MergeSubs.SourceEntriesCount | scripts/merge_subs.py:50 | each non-empty, non-`#` line appears among the sources exactly as often as among the lines; any other line never appears |
| MergeSubs.ParseSources | scripts/merge_subs.py:50 | every source read from the file is non-empty and trimmed and does not start with `#` |
| MergeSubs.ParseSourcesScan | scripts/merge_subs.py:50 | the sources are an order-preserving subsequence of the stripped lines of the file, and no non-empty, non-`#` stripped line is dropped |
| MergeSubs.SourceNodes | scripts/merge_subs.py:55-67 | the nodes one source contributes are all clean node lines. A fetch that raises contributes none |
| MergeSubs.CollectNodes | scripts/merge_subs.py:52-67 | every collected node is a clean node line |
| MergeSubs.CollectAppend | scripts/merge_subs.py:54-64 | the nodes collected over two runs of sources are those of the first run followed by those of the second |
| MergeSubs.CollectSingle | scripts/merge_subs.py:54-64 | collecting over a single source gives exactly that source's nodes |
| MergeSubs.CollectPrefix | scripts/merge_subs.py:54-64 | one more loop iteration appends exactly the current source's nodes |
| MergeSubs.FailedSourceIsolated | scripts/merge_subs.py:55-67 | a source whose fetch raises leaves the nodes of the sources before and after it as if it were not listed |
| MergeSubs.EverySourceContributes | scripts/merge_subs.py:54-67 | every node of every listed source is collected, whatever the other sources do |
| MergeSubs.CollectSources | scripts/merge_subs.py:52-67 | the fetch loop, with a `None` fetch skipped, collects the sources' nodes in source order |
| MergeSubs.DedupeNodes | scripts/merge_subs.py:69-74 | the `seen`-set loop returns a list with no duplicates. Its values are exactly the values of the input, ordered by first occurrence |
| MergeSubs.DistinctIsFirstOccurrenceList | scripts/merge_subs.py:69-74 | keeping first occurrences gives a duplicate-free list of exactly the input's values, in first-occurrence order |
| MergeSubs.FirstOccurrenceListUnique | scripts/merge_subs.py:69-74 | only one list meets that description: it equals the first-occurrence deduplication |
| MergeSubs.PlainTextShape | scripts/merge_subs.py:76 | the plaintext is empty exactly when there are no nodes. Otherwise it is the nodes joined by `\n` plus one trailing `\n`, so the `.strip()` removes nothing |
| MergeSubs.PlainTextLines | scripts/merge_subs.py:76 | splitting a non-empty plaintext at `\n` gives the nodes followed by one empty string |
| MergeSubs.PlainTextReextracts | scripts/merge_subs.py:76 | running `extract_nodes` over the written plaintext gives the same node list back |
| MergeSubs.B64Artifact | scripts/merge_subs.py:80-82 | `sub.txt` ends in `\n`. The base64 before it decodes to the UTF-8 octets of the plaintext, and those octets decode back to the plaintext |
| MergeSubs.EmptyArtifacts | scripts/merge_subs.py:76-82 | with no nodes, `nodes.txt` is empty and `sub.txt` is a lone newline |
| MergeSubs.MergedPlainText | scripts/merge_subs.py:69-76 | re-extracting the plaintext built from the deduplicated list gives a first-occurrence list of all collected nodes. The plaintext is empty exactly when nothing was collected, and it splits into those lines plus a final empty one |
| MergeSubs.WriteArtifacts | scripts/merge_subs.py:69-82 | dedupe, then write both artifacts, with the merged-list and base64 round-trip properties |
| MergeSubs.Run | scripts/merge_subs.py:48-82 | the nodes of `nodes.txt` are the collected nodes once each, in first-occurrence order. An empty source list writes `""` and `"\n"`. `sub.txt` decodes back to `nodes.txt` |
| PyStr.Strip | scripts/merge_subs.py:15 | `strip()` returns a trimmed string no longer than its input |
| PyStr.StripSlice | scripts/merge_subs.py:15 | the stripped string is a slice of the input with only whitespace cut on either side |
| PyStr.StripFixpoint | scripts/merge_subs.py:76 | stripping changes nothing exactly when the string is already trimmed |
| PyStr.ContainsIffOccurs | scripts/merge_subs.py:24 | `p in s` holds exactly when `p` occurs at some index of `s` |
| PyStr.ReplaceChar | scripts/merge_subs.py:39 | `replace` of one character keeps the length and rewrites exactly the matching positions |
| PyStr.Split | scripts/merge_subs.py:39 | `split` gives at least one piece, and no piece contains the separator |
| PyStr.JoinSplit | scripts/merge_subs.py:39 | joining the pieces of `split` with the separator gives back the string |
| PyStr.SplitJoin | scripts/merge_subs.py:76 | splitting a join of separator-free pieces gives back the pieces |
| PyStr.SplitLines | scripts/merge_subs.py:50 | `splitlines` gives no lines for the empty string, and no line contains a line break |
| PyStr.LineThenAnyBreak | scripts/merge_subs.py:50 | every boundary `splitlines` recognizes (`\n`, `\r` not followed by `\n`, `\v`, `\f`, `\x1c`-`\x1e`, `\x85`, `\u2028`, `\u2029`) ends the current line and opens exactly one new one |
| PyStr.LineThenCrLf | scripts/merge_subs.py:50 | `\r\n` ends the current line and opens exactly one new one, not two |
| PyStr.SplitLinesJoin | scripts/merge_subs.py:50 | `splitlines` of break-free lines joined by `\n` gives back the lines, provided the last line is non-empty |
| Sequences.Filter | scripts/merge_subs.py:41-46 | the kept elements pass the test, form a subsequence of the input, and include every passing element |
| Sequences.FilterCount | scripts/merge_subs.py:41-46 | every occurrence of a passing value is kept and no occurrence of a failing one |
| Sequences.Distinct | scripts/merge_subs.py:69-74 | first-occurrence deduplication returns a duplicate-free subsequence that holds every value not already seen |
| Sequences.DistinctFirstOccurrenceOrder | scripts/merge_subs.py:69-74 | the deduplicated values are ordered by their first index in the input |
| Sequences.OrderedByFirstIndexUnique | scripts/merge_subs.py:69-74 | two lists with the same values, each ordered by first index, are equal |
| Base64.EncodeLength | scripts/merge_subs.py:80 | the encoding has 4 characters per started group of 3 octets |
| Base64.EncodeAlphabet | scripts/merge_subs.py:80 | the encoding uses only alphabet characters and `=`, and every `=` comes after all alphabet characters |
| Base64.DecodeEncode | scripts/merge_subs.py:80 | decoding the encoding of any octets gives them back |
| Base64.EncodeDecode | scripts/merge_subs.py:80 | any text the strict decoder accepts is the encoding of what it decodes to |
| Utf8.DecodeEncode | scripts/merge_subs.py:80 | decoding the UTF-8 encoding of any string gives it back |
| Utf8.EncodeDecode | scripts/merge_subs.py:80 | any octets the strict decoder accepts are the encoding of what they decode to |

## Left out

- `fetch_text` (lines 30-36) is a parameter. Its network request, User-Agent header, 30-second timeout and lenient body decoding are not modelled; a raised exception is `None`.
- `fetch` is a function, so one URL gives the same answer each time within a run. The script sends a fresh request for every entry, and line 50 does not deduplicate the source list. A URL listed twice, whose first request fails and whose second succeeds, contributes its nodes once in the script; the model gives it none or both times. The model assumes the server answers the same way for the same URL within one run.
- `base64.b64decode` and the following `decode("utf-8", errors="ignore")` (lines 22-23) are one parameter. Python's tolerance of extra padding and stray characters, and the dropping of invalid UTF-8, are library behaviour outside the model. The model states only what the script does with the result.
- Reading `sources.txt` and writing `nodes.txt` and `sub.txt` are file I/O. The file text is a parameter, and the two written texts are the result. A missing or unreadable `sources.txt` raises and ends the script; the model starts from the file's text.
- The failure message at line 67 and the node count printed at line 84 are console output and are not modelled.
- Characters are Unicode scalar values. Python's surrogate code points in `str` are not modelled, so every string has a UTF-8 encoding.
- `Base64.Decode` is the strict decoder used to state the round trip of `sub.txt`. It is not the lenient decoder of line 22, which stays a parameter.
