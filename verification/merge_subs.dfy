/**
  scripts/merge_subs.py: merges proxy-node subscriptions. The sources listed in a text file are
  fetched one after the other; each body is scanned as it is or, when it looks like a base64
  bundle whose decoding mentions a node scheme, in decoded form. The node lines are collected in
  source order, deduplicated keeping first occurrences, and written as a plaintext list and as
  the base64 encoding of that list.

  The network and the decoding library are parameters:
  - `fetch: string -> Option<string>` stands for `fetch_text(url)`, `None` when it raises;
  - `b64decode: string -> Option<string>` stands for `base64.b64decode(x)` followed by
    `.decode("utf-8", errors="ignore")`, `None` when it raises.
 */
module MergeSubs {
  import opened Wrappers
  import opened PyStr
  import opened Sequences
  import Base64
  import Utf8

  // ---------------------------------------------------------------------------------------------
  // Node schemes
  // ---------------------------------------------------------------------------------------------

  /** `NODE_PREFIXES`: the recognized proxy-URI schemes. */
  const NodePrefixes: seq<string> :=
    ["vless://", "vmess://", "trojan://", "ss://", "ssr://", "hysteria://", "hysteria2://", "tuic://"]

  /** `s.startswith(prefixes)` for a tuple: the prefixes are tried in turn. */
  predicate StartsWithAny(s: string, prefixes: seq<string>)
    decreases |prefixes|
  {
    |prefixes| > 0 && (StartsWith(s, prefixes[0]) || StartsWithAny(s, prefixes[1..]))
  }

  /** Trying the prefixes in turn succeeds exactly when one of them is a prefix of `s`. */
  lemma {:induction false} StartsWithAnyIff(s: string, prefixes: seq<string>)
    ensures StartsWithAny(s, prefixes) <==> exists k :: 0 <= k < |prefixes| && StartsWith(s, prefixes[k])
    decreases |prefixes|
  {
    if |prefixes| > 0 {
      StartsWithAnyIff(s, prefixes[1..]);
      assert forall k :: 1 <= k < |prefixes| ==> prefixes[k] == prefixes[1..][k - 1];
    }
  }

  /** `s.startswith(NODE_PREFIXES)`: a literal, case-sensitive prefix test. */
  predicate HasNodePrefix(s: string) {
    StartsWithAny(s, NodePrefixes)
  }

  /** `any(p in text for p in NODE_PREFIXES)`: the prefixes are tried in turn as substrings. */
  predicate ContainsAny(text: string, prefixes: seq<string>)
    decreases |prefixes|
  {
    |prefixes| > 0 && (Contains(text, prefixes[0]) || ContainsAny(text, prefixes[1..]))
  }

  /** Some recognized prefix occurs at some index of `text`. */
  ghost predicate PrefixOccurs(text: string) {
    exists k, i :: 0 <= k < |NodePrefixes| && OccursAt(text, NodePrefixes[k], i)
  }

  /** The substring scan agrees with the index form. */
  lemma {:induction false} ContainsAnyIff(text: string, prefixes: seq<string>)
    ensures ContainsAny(text, prefixes) <==>
            exists k, i :: 0 <= k < |prefixes| && OccursAt(text, prefixes[k], i)
    decreases |prefixes|
  {
    if |prefixes| > 0 {
      ContainsIffOccurs(text, prefixes[0]);
      ContainsAnyIff(text, prefixes[1..]);
      assert forall k :: 1 <= k < |prefixes| ==> prefixes[k] == prefixes[1..][k - 1];
      if exists k, i :: 0 <= k < |prefixes| && OccursAt(text, prefixes[k], i) {
        var k, i :| 0 <= k < |prefixes| && OccursAt(text, prefixes[k], i);
        if k > 0 {
          assert OccursAt(text, prefixes[1..][k - 1], i);
        }
      }
    }
  }

  /** What every collected node satisfies: a non-empty, stripped line of one physical line that
      starts with a recognized scheme. */
  predicate IsCleanNode(n: string) {
    IsNodeLine(n) && IsTrimmedLine(n)
  }

  // ---------------------------------------------------------------------------------------------
  // The base64 gate (is_probably_base64, try_b64_decode_to_text)
  // ---------------------------------------------------------------------------------------------

  /** Shortest stripped body taken for a base64 bundle. */
  const MinBase64Length := 40

  /** The character class `[A-Za-z0-9+/=\s]`. */
  predicate IsGateChar(c: char) {
    || ('A' <= c <= 'Z') || ('a' <= c <= 'z') || ('0' <= c <= '9')
    || c == '+' || c == '/' || c == '=' || IsSpace(c)
  }

  /** `re.fullmatch(r"[A-Za-z0-9+/=\s]+", t) is not None`: one class character followed by either
      the end or another match of the pattern. */
  predicate FullMatchGateClass(t: string)
    decreases |t|
  {
    |t| >= 1 && IsGateChar(t[0]) && (|t| == 1 || FullMatchGateClass(t[1..]))
  }

  /** The pattern matches exactly the non-empty strings of class characters. */
  lemma {:induction false} FullMatchGateClassIff(t: string)
    ensures FullMatchGateClass(t) <==> |t| >= 1 && forall i :: 0 <= i < |t| ==> IsGateChar(t[i])
    decreases |t|
  {
    if |t| > 1 {
      FullMatchGateClassIff(t[1..]);
      assert forall i :: 1 <= i < |t| ==> t[i] == t[1..][i - 1];
    }
  }

  /** The gate as stated on the stripped body: long enough and made of class characters. */
  ghost predicate GateHolds(s: string) {
    && |Strip(s)| >= MinBase64Length
    && forall i :: 0 <= i < |Strip(s)| ==> IsGateChar(Strip(s)[i])
  }

  /** `is_probably_base64(s)` */
  function IsProbablyBase64(s: string): (r: bool)
    ensures |Strip(s)| < MinBase64Length ==> !r
    ensures r <==> GateHolds(s)
  {
    var t := Strip(s);
    if |t| < MinBase64Length then false
    else
      FullMatchGateClassIff(t);
      FullMatchGateClass(t)
  }

  /** The padding appended before decoding, unconditionally. */
  const Padding := "==="

  /** `try_b64_decode_to_text(s)`: the decoded text when decoding succeeds and the text mentions
      a recognized scheme anywhere; `None` otherwise. */
  function TryB64DecodeToText(s: string, b64decode: string -> Option<string>): (r: Option<string>)
    ensures r.Some? ==> b64decode(Strip(s) + Padding) == r && PrefixOccurs(r.value)
    ensures r.None? ==> match b64decode(Strip(s) + Padding)
                        case None => true
                        case Some(text) => !PrefixOccurs(text)
  {
    match b64decode(Strip(s) + Padding)
    case None => None
    case Some(text) =>
      ContainsAnyIff(text, NodePrefixes);
      if ContainsAny(text, NodePrefixes) then Some(text) else None
  }

  /** The text scanned for one fetched body (lines 58-62 of `main`). */
  function SelectText(content: string, b64decode: string -> Option<string>): (text: string)
    ensures var d := b64decode(Strip(content) + Padding);
            GateHolds(content) && d.Some? && PrefixOccurs(d.value) ==> text == d.value
    ensures text != content ==>
              && GateHolds(content)
              && b64decode(Strip(content) + Padding) == Some(text)
              && PrefixOccurs(text)
  {
    var decoded := if IsProbablyBase64(content) then TryB64DecodeToText(content, b64decode) else None;
    if decoded.Some? then decoded.value else content
  }

  // ---------------------------------------------------------------------------------------------
  // Node extraction (extract_nodes)
  // ---------------------------------------------------------------------------------------------

  /** A stripped piece of one physical line. */
  predicate IsTrimmedLine(ln: string) {
    IsTrimmed(ln) && '\r' !in ln && '\n' !in ln
  }

  /** The lines `extract_nodes` looks at (line 39): `\r` rewritten to `\n`, split at `\n`, each
      stripped. */
  function TrimmedLines(text: string): (lines: seq<string>)
    ensures forall k :: 0 <= k < |lines| ==> IsTrimmedLine(lines[k])
  {
    var parts := Split(ReplaceChar(text, '\r', '\n'), '\n');
    StripPartsOnePhysicalLine(text, parts);
    StripAll(parts)
  }

  /** Stripping the pieces of the rewritten text leaves no line-feed or carriage return. */
  lemma StripPartsOnePhysicalLine(text: string, parts: seq<string>)
    requires parts == Split(ReplaceChar(text, '\r', '\n'), '\n')
    ensures forall k :: 0 <= k < |StripAll(parts)| ==> IsTrimmedLine(StripAll(parts)[k])
  {
    ReplaceRemoves(text, '\r', '\n');
    SplitKeepsAbsent(ReplaceChar(text, '\r', '\n'), '\n', '\r');
    StripPiecesAreLines(parts);
  }

  /** Stripping pieces without line-feeds or carriage returns gives trimmed physical lines. */
  lemma StripPiecesAreLines(parts: seq<string>)
    requires forall k :: 0 <= k < |parts| ==> '\r' !in parts[k] && '\n' !in parts[k]
    ensures forall k :: 0 <= k < |StripAll(parts)| ==> IsTrimmedLine(StripAll(parts)[k])
  {
    StripAllKeepsAbsent(parts, '\r');
    StripAllKeepsAbsent(parts, '\n');
  }

  /** The test of lines 42-45: a non-empty line with a recognized prefix. */
  predicate IsNodeLine(ln: string) {
    ln != "" && HasNodePrefix(ln)
  }

  /** The loop of lines 41-46 over the stripped lines: the non-empty lines with a recognized
      prefix, in order. */
  function NodeLines(lines: seq<string>): (nodes: seq<string>)
    ensures forall k :: 0 <= k < |nodes| ==> nodes[k] != "" && HasNodePrefix(nodes[k])
    ensures IsSubsequence(nodes, lines)
    ensures forall k :: 0 <= k < |lines| && HasNodePrefix(lines[k]) ==> lines[k] in nodes
  {
    forall k | 0 <= k < |lines| && HasNodePrefix(lines[k])
      ensures IsNodeLine(lines[k])
    {
      NodePrefixNonEmpty(lines[k]);
    }
    Filter(IsNodeLine, lines)
  }

  /** A line occurs among the nodes exactly as often as among the lines when it is a non-empty
      prefixed line, and never otherwise. */
  lemma NodeLinesCount(lines: seq<string>, ln: string)
    ensures multiset(NodeLines(lines))[ln] == if ln != "" && HasNodePrefix(ln) then multiset(lines)[ln] else 0
  {
    FilterCount(IsNodeLine, lines, ln);
  }

  /** A line with a recognized prefix is not empty. */
  lemma NodePrefixNonEmpty(ln: string)
    requires HasNodePrefix(ln)
    ensures ln != ""
  {
    StartsWithAnyIff(ln, NodePrefixes);
  }

  /** `extract_nodes(text)`: the node lines among the stripped physical lines of `text`. */
  function ExtractNodes(text: string): (nodes: seq<string>)
    ensures forall k :: 0 <= k < |nodes| ==> IsCleanNode(nodes[k])
  {
    NodeLinesClean(TrimmedLines(text));
    NodeLines(TrimmedLines(text))
  }

  /** `extract_nodes` keeps the order of the stripped lines and drops no line with a recognized
      prefix. */
  lemma ExtractNodesScan(text: string)
    ensures IsSubsequence(ExtractNodes(text), TrimmedLines(text))
    ensures forall k :: 0 <= k < |TrimmedLines(text)| && HasNodePrefix(TrimmedLines(text)[k]) ==>
              TrimmedLines(text)[k] in ExtractNodes(text)
  {
    var lines := TrimmedLines(text);
    assert ExtractNodes(text) == NodeLines(lines);
  }

  /** The node lines kept from stripped physical lines are clean nodes. */
  lemma NodeLinesClean(lines: seq<string>)
    requires forall k :: 0 <= k < |lines| ==> IsTrimmedLine(lines[k])
    ensures forall k :: 0 <= k < |NodeLines(lines)| ==> IsCleanNode(NodeLines(lines)[k])
  {
    FilterPreserves(IsNodeLine, IsTrimmedLine, lines);
  }

  // ---------------------------------------------------------------------------------------------
  // The source list
  // ---------------------------------------------------------------------------------------------

  /** The lines of the source file, each stripped. */
  function StrippedLines(fileText: string): (lines: seq<string>)
    ensures forall k :: 0 <= k < |lines| ==> IsTrimmed(lines[k])
  {
    StripAll(SplitLines(fileText))
  }

  /** An entry the source list keeps: non-empty and not a `#` comment. */
  predicate IsSourceEntry(ln: string) {
    ln != "" && !StartsWith(ln, "#")
  }

  /** The filter of the source-list comprehension (line 50): the entries among the stripped
      lines, in order. */
  function SourceEntries(lines: seq<string>): (sources: seq<string>)
    ensures forall k :: 0 <= k < |sources| ==> sources[k] != "" && !StartsWith(sources[k], "#")
    ensures IsSubsequence(sources, lines)
    ensures forall k :: 0 <= k < |lines| && IsSourceEntry(lines[k]) ==> lines[k] in sources
  {
    Filter(IsSourceEntry, lines)
  }

  /** A line occurs among the sources exactly as often as among the lines when it is a non-empty
      non-comment line, and never otherwise. */
  lemma SourceEntriesCount(lines: seq<string>, ln: string)
    ensures multiset(SourceEntries(lines))[ln] == if IsSourceEntry(ln) then multiset(lines)[ln] else 0
  {
    FilterCount(IsSourceEntry, lines, ln);
  }

  /** The source-list comprehension of `main` (line 50): the entries among the stripped lines of
      the file. */
  function ParseSources(fileText: string): (sources: seq<string>)
    ensures forall k :: 0 <= k < |sources| ==>
              sources[k] != "" && IsTrimmed(sources[k]) && !StartsWith(sources[k], "#")
  {
    var lines := StrippedLines(fileText);
    FilterPreserves(IsSourceEntry, IsTrimmed, lines);
    SourceEntries(lines)
  }

  /** The source list keeps the order of the stripped lines and drops no non-empty, non-`#` line. */
  lemma ParseSourcesScan(fileText: string)
    ensures IsSubsequence(ParseSources(fileText), StrippedLines(fileText))
    ensures forall k :: 0 <= k < |StrippedLines(fileText)| && IsSourceEntry(StrippedLines(fileText)[k]) ==>
              StrippedLines(fileText)[k] in ParseSources(fileText)
  {
    var lines := StrippedLines(fileText);
    assert ParseSources(fileText) == SourceEntries(lines);
  }

  // ---------------------------------------------------------------------------------------------
  // Collecting the nodes of all sources
  // ---------------------------------------------------------------------------------------------

  /** The nodes one source adds to `all_nodes`: none when the fetch raises. */
  function SourceNodes(url: string, fetch: string -> Option<string>, b64decode: string -> Option<string>)
    : (nodes: seq<string>)
    ensures forall k :: 0 <= k < |nodes| ==> IsCleanNode(nodes[k])
  {
    match fetch(url)
    case None => []
    case Some(content) => ExtractNodes(SelectText(content, b64decode))
  }

  /** `all_nodes` after the loop over `sources` (lines 52-67): the sources' nodes in source order. */
  function CollectNodes(sources: seq<string>, fetch: string -> Option<string>, b64decode: string -> Option<string>)
    : (all: seq<string>)
    ensures forall k :: 0 <= k < |all| ==> IsCleanNode(all[k])
    decreases |sources|
  {
    if |sources| == 0 then []
    else SourceNodes(sources[0], fetch, b64decode) + CollectNodes(sources[1..], fetch, b64decode)
  }

  /** Collecting over two lists of sources is collecting over each, one after the other. */
  lemma {:induction false} CollectAppend(a: seq<string>, b: seq<string>,
                                         fetch: string -> Option<string>, b64decode: string -> Option<string>)
    ensures CollectNodes(a + b, fetch, b64decode) == CollectNodes(a, fetch, b64decode) + CollectNodes(b, fetch, b64decode)
    decreases |a|
  {
    if |a| > 0 {
      CollectAppend(a[1..], b, fetch, b64decode);
      ConsTail(a, b);
      CollectCons(a + b, fetch, b64decode);
      CollectCons(a, fetch, b64decode);
      Regroup(CollectNodes(a + b, fetch, b64decode), CollectNodes(a, fetch, b64decode), SourceNodes(a[0], fetch, b64decode),
              CollectNodes(a[1..], fetch, b64decode), CollectNodes(b, fetch, b64decode));
    } else {
      assert a + b == b;
    }
  }

  /** Regrouping a three-part concatenation. */
  lemma Regroup(whole: seq<string>, front: seq<string>, x: seq<string>, y: seq<string>, z: seq<string>)
    requires whole == x + (y + z) && front == x + y
    ensures whole == front + z
  {
    AppendAssoc(x, y, z);
  }

  /** Collecting over a non-empty list: the first source's nodes, then the rest. */
  lemma CollectCons(s: seq<string>, fetch: string -> Option<string>, b64decode: string -> Option<string>)
    requires |s| > 0
    ensures CollectNodes(s, fetch, b64decode) == SourceNodes(s[0], fetch, b64decode) + CollectNodes(s[1..], fetch, b64decode)
  {
  }

  /** A source whose fetch raises adds nothing, and the sources around it are collected as if it
      were not listed. */
  lemma FailedSourceIsolated(a: seq<string>, url: string, b: seq<string>,
                             fetch: string -> Option<string>, b64decode: string -> Option<string>)
    requires fetch(url).None?
    ensures CollectNodes(a + [url] + b, fetch, b64decode)
         == CollectNodes(a, fetch, b64decode) + CollectNodes(b, fetch, b64decode)
  {
    CollectAround(a, url, b, fetch, b64decode);
    var x := CollectNodes(a, fetch, b64decode);
    assert x + [] == x;
  }

  /** The nodes collected around one source: those before it, its own, those after it. */
  lemma CollectAround(a: seq<string>, url: string, b: seq<string>,
                      fetch: string -> Option<string>, b64decode: string -> Option<string>)
    ensures CollectNodes(a + [url] + b, fetch, b64decode)
         == CollectNodes(a, fetch, b64decode) + SourceNodes(url, fetch, b64decode) + CollectNodes(b, fetch, b64decode)
  {
    CollectAppend(a + [url], b, fetch, b64decode);
    CollectAppend(a, [url], fetch, b64decode);
    CollectSingle(url, fetch, b64decode);
  }

  /** Collecting over one source is that source's nodes. */
  lemma CollectSingle(url: string, fetch: string -> Option<string>, b64decode: string -> Option<string>)
    ensures CollectNodes([url], fetch, b64decode) == SourceNodes(url, fetch, b64decode)
  {
    assert [url][1..] == [];
    var n := SourceNodes(url, fetch, b64decode);
    assert n + [] == n;
  }

  /** Every node of every listed source is collected, whatever the other sources do. */
  lemma EverySourceContributes(sources: seq<string>, k: int, fetch: string -> Option<string>,
                               b64decode: string -> Option<string>)
    requires 0 <= k < |sources|
    ensures forall n :: n in SourceNodes(sources[k], fetch, b64decode) ==> n in CollectNodes(sources, fetch, b64decode)
  {
    SplitAround(sources, k);
    CollectAround(sources[..k], sources[k], sources[k + 1..], fetch, b64decode);
  }

  /** A sequence is what comes before position `k`, the element there, and what comes after. */
  lemma SplitAround(s: seq<string>, k: int)
    requires 0 <= k < |s|
    ensures s == s[..k] + [s[k]] + s[k + 1..]
  {
  }

  // ---------------------------------------------------------------------------------------------
  // Deduplication (lines 69-74)
  // ---------------------------------------------------------------------------------------------

  /** `nodes` lists the values of `all` once each, in the order of their first occurrences. */
  ghost predicate IsFirstOccurrenceList(nodes: seq<string>, all: seq<string>) {
    && NoDuplicates(nodes)
    && (forall k :: 0 <= k < |nodes| ==> nodes[k] in all)
    && (forall k :: 0 <= k < |all| ==> all[k] in nodes)
    && OrderedByFirstIndex(nodes, all)
  }

  /** The dedupe loop of `main`, with its `seen` set. */
  method DedupeNodes(all: seq<string>) returns (unique: seq<string>)
    ensures IsFirstOccurrenceList(unique, all)
    ensures IsSubsequence(unique, all)
    ensures unique == Distinct(all, {})
  {
    var seen: set<string> := {};
    unique := [];
    for i := 0 to |all|
      invariant unique + Distinct(all[i..], seen) == Distinct(all, {})
    {
      var n := all[i];
      DedupeStep(all, i, seen, unique);
      if n !in seen {
        seen := seen + {n};
        unique := unique + [n];
      }
    }
    DistinctDone(all, unique, seen);
    DistinctIsFirstOccurrenceList(all);
  }

  /** Keeping first occurrences lists every value once, in first-occurrence order. */
  lemma DistinctIsFirstOccurrenceList(all: seq<string>)
    ensures IsFirstOccurrenceList(Distinct(all, {}), all)
  {
    DistinctFirstOccurrenceOrder(all, {});
  }

  /** The first-occurrence description pins the deduplicated list down: it is `Distinct(all, {})`. */
  lemma FirstOccurrenceListUnique(nodes: seq<string>, all: seq<string>)
    requires IsFirstOccurrenceList(nodes, all)
    ensures nodes == Distinct(all, {})
  {
    var d := Distinct(all, {});
    DistinctIsFirstOccurrenceList(all);
    forall k | 0 <= k < |nodes|
      ensures nodes[k] in d
    {
      var j :| 0 <= j < |all| && all[j] == nodes[k];
    }
    forall k | 0 <= k < |d|
      ensures d[k] in nodes
    {
      var j :| 0 <= j < |all| && all[j] == d[k];
    }
    OrderedByFirstIndexUnique(nodes, d, all);
  }

  /** One iteration of the dedupe loop keeps its invariant. */
  lemma DedupeStep(all: seq<string>, i: int, seen: set<string>, unique: seq<string>)
    requires 0 <= i < |all|
    requires unique + Distinct(all[i..], seen) == Distinct(all, {})
    ensures all[i] in seen ==> unique + Distinct(all[i + 1..], seen) == Distinct(all, {})
    ensures all[i] !in seen ==> (unique + [all[i]]) + Distinct(all[i + 1..], seen + {all[i]}) == Distinct(all, {})
  {
    DistinctStep(all, i, seen);
    if all[i] !in seen {
      AppendAssoc(unique, [all[i]], Distinct(all[i + 1..], seen + {all[i]}));
    }
  }

  /** One step of the dedupe loop, on the rest of the input. */
  lemma DistinctStep(all: seq<string>, i: int, seen: set<string>)
    requires 0 <= i < |all|
    ensures all[i] in seen ==> Distinct(all[i..], seen) == Distinct(all[i + 1..], seen)
    ensures all[i] !in seen ==> Distinct(all[i..], seen) == [all[i]] + Distinct(all[i + 1..], seen + {all[i]})
  {
    assert all[i..][0] == all[i] && all[i..][1..] == all[i + 1..];
  }

  /** After the whole input the accumulated list is the deduplicated input. */
  lemma DistinctDone(all: seq<string>, unique: seq<string>, seen: set<string>)
    requires unique + Distinct(all[|all|..], seen) == Distinct(all, {})
    ensures unique == Distinct(all, {})
  {
    assert all[|all|..] == [];
    assert unique + [] == unique;
  }

  // ---------------------------------------------------------------------------------------------
  // The artifacts (lines 76-82)
  // ---------------------------------------------------------------------------------------------

  /** The plaintext artifact as line 76 builds it. */
  function PlainText(nodes: seq<string>): string {
    Strip(Join(nodes, "\n")) + (if |nodes| > 0 then "\n" else "")
  }

  /** For stripped, non-empty nodes the `.strip()` of line 76 changes nothing: the artifact is
      empty without nodes, and otherwise the nodes joined by `\n` plus one final `\n`. */
  lemma PlainTextShape(nodes: seq<string>)
    requires forall k :: 0 <= k < |nodes| ==> nodes[k] != "" && IsTrimmed(nodes[k])
    ensures nodes == [] <==> PlainText(nodes) == ""
    ensures nodes != [] ==> PlainText(nodes) == Join(nodes, "\n") + "\n"
  {
    if nodes != [] {
      JoinEnds(nodes, "\n");
      StripFixpoint(Join(nodes, "\n"));
    }
  }

  /** The plaintext artifact holds one node per `\n`-terminated line. */
  lemma PlainTextLines(nodes: seq<string>)
    requires forall k :: 0 <= k < |nodes| ==> IsCleanNode(nodes[k])
    ensures nodes != [] ==> Split(PlainText(nodes), '\n') == nodes + [""]
  {
    if nodes != [] {
      PlainTextShape(nodes);
      JoinSnocEmpty(nodes, "\n");
      PiecesWithoutBreaks(nodes);
      SplitJoin(nodes + [""], '\n');
    }
  }

  /** The nodes and a final empty piece hold no line-feed. */
  lemma PiecesWithoutBreaks(nodes: seq<string>)
    requires forall k :: 0 <= k < |nodes| ==> IsCleanNode(nodes[k])
    ensures forall k :: 0 <= k < |nodes + [""]| ==> '\n' !in (nodes + [""])[k]
  {
    forall k | 0 <= k < |nodes + [""]|
      ensures '\n' !in (nodes + [""])[k]
    {
      if k < |nodes| {
        assert (nodes + [""])[k] == nodes[k];
      }
    }
  }

  /** Joining with one more, empty, part appends one separator. */
  lemma {:induction false} JoinSnocEmpty(parts: seq<string>, sep: string)
    requires |parts| >= 1
    ensures Join(parts + [""], sep) == Join(parts, sep) + sep
    decreases |parts|
  {
    if |parts| == 1 {
      assert parts + [""] == [parts[0], ""];
    } else {
      assert (parts + [""])[1..] == parts[1..] + [""];
      JoinSnocEmpty(parts[1..], sep);
    }
  }

  /** The `\n`-separated pieces of the plaintext artifact: the nodes and a final empty piece. */
  function PlainPieces(nodes: seq<string>): seq<string> {
    if nodes == [] then [""] else nodes + [""]
  }

  /** Scanning the plaintext artifact again yields exactly the nodes written. */
  lemma PlainTextReextracts(nodes: seq<string>)
    requires forall k :: 0 <= k < |nodes| ==> IsCleanNode(nodes[k])
    ensures ExtractNodes(PlainText(nodes)) == nodes
  {
    PlainTrimmedLines(nodes);
    FilterNodesThenEmpty(nodes);
  }

  /** The lines `extract_nodes` sees in the plaintext artifact are its `\n`-separated pieces. */
  lemma PlainTrimmedLines(nodes: seq<string>)
    requires forall k :: 0 <= k < |nodes| ==> IsCleanNode(nodes[k])
    ensures TrimmedLines(PlainText(nodes)) == PlainPieces(nodes)
  {
    PlainTextShape(nodes);
    PlainTextLines(nodes);
    PlainPiecesTrimmed(nodes);
    TrimmedLinesOfLines(PlainText(nodes), PlainPieces(nodes));
  }

  /** The pieces of the plaintext artifact are stripped physical lines. */
  lemma PlainPiecesTrimmed(nodes: seq<string>)
    requires forall k :: 0 <= k < |nodes| ==> IsCleanNode(nodes[k])
    ensures forall j :: 0 <= j < |PlainPieces(nodes)| ==> IsTrimmedLine(PlainPieces(nodes)[j])
  {
    var p := PlainPieces(nodes);
    forall j | 0 <= j < |p|
      ensures IsTrimmedLine(p[j])
    {
      if j < |nodes| {
        assert p[j] == nodes[j];
      } else {
        assert p[j] == "";
      }
    }
  }

  /** A text without carriage returns whose pieces at `\n` are already stripped is seen by
      `extract_nodes` as exactly those pieces. */
  lemma TrimmedLinesOfLines(text: string, parts: seq<string>)
    requires Split(text, '\n') == parts
    requires forall j :: 0 <= j < |parts| ==> IsTrimmedLine(parts[j])
    ensures TrimmedLines(text) == parts
  {
    SplitAbsent(text, '\n', '\r');
    ReplaceAbsent(text, '\r', '\n');
    StripAllTrimmed(parts);
  }

  /** Stripping lines that are already stripped changes none of them. */
  lemma StripAllTrimmed(parts: seq<string>)
    requires forall j :: 0 <= j < |parts| ==> IsTrimmed(parts[j])
    ensures StripAll(parts) == parts
  {
    forall j | 0 <= j < |parts| {
      StripFixpoint(parts[j]);
    }
  }

  /** The node test keeps the nodes and drops the final empty piece. */
  lemma FilterNodesThenEmpty(nodes: seq<string>)
    requires forall k :: 0 <= k < |nodes| ==> IsCleanNode(nodes[k])
    ensures Filter(IsNodeLine, PlainPieces(nodes)) == nodes
  {
    if nodes != [] {
      FilterAppend(IsNodeLine, nodes, [""]);
      FilterAll(IsNodeLine, nodes);
      assert Filter(IsNodeLine, [""]) == [];
      assert nodes + [] == nodes;
    }
  }

  /** `b64` is a line holding the base64 text whose decoding, read as UTF-8, gives back `plain`. */
  ghost predicate IsB64ArtifactOf(b64: string, plain: string) {
    && |b64| >= 1 && b64[|b64| - 1] == '\n'
    && Base64.Decode(b64[..|b64| - 1]) == Some(Utf8.Encode(plain))
    && Utf8.Decode(Utf8.Encode(plain)) == Some(plain)
  }

  /** The base64 artifact (lines 80-82): the RFC 4648 encoding of the plaintext's UTF-8 octets,
      then a newline. */
  function B64Artifact(plain: string): (r: string)
    ensures IsB64ArtifactOf(r, plain)
  {
    var octets := Utf8.Encode(plain);
    Base64.DecodeEncode(octets);
    Utf8.DecodeEncode(plain);
    var e := Base64.Encode(octets);
    assert (e + "\n")[..|e|] == e;
    e + "\n"
  }

  // ---------------------------------------------------------------------------------------------
  // The whole run (main)
  // ---------------------------------------------------------------------------------------------

  /** The two files a run writes: `nodes.txt` and `sub.txt`. */
  datatype Artifacts = Artifacts(plain: string, b64: string)

  /** The properties of the plaintext artifact written for the collected nodes `all`. */
  ghost predicate IsMergedPlainText(plain: string, all: seq<string>) {
    var nodes := ExtractNodes(plain);
    && IsFirstOccurrenceList(nodes, all)
    && (plain == "" <==> all == [])
    && (all != [] ==> Split(plain, '\n') == nodes + [""])
  }

  /** `main()`, given the text of `sources.txt`: collect, dedupe, write both artifacts. */
  method Run(sourcesFile: string, fetch: string -> Option<string>, b64decode: string -> Option<string>)
    returns (out: Artifacts)
    ensures IsB64ArtifactOf(out.b64, out.plain)
    ensures ParseSources(sourcesFile) == [] ==> out == Artifacts("", "\n")
    ensures IsMergedPlainText(out.plain, CollectNodes(ParseSources(sourcesFile), fetch, b64decode))
  {
    var sources := ParseSources(sourcesFile);
    var allNodes := CollectSources(sources, fetch, b64decode);
    out := WriteArtifacts(allNodes);
  }

  /** The fetch loop of `main` (lines 52-67): a failed fetch is logged and skipped. */
  method CollectSources(sources: seq<string>, fetch: string -> Option<string>, b64decode: string -> Option<string>)
    returns (allNodes: seq<string>)
    ensures allNodes == CollectNodes(sources, fetch, b64decode)
    ensures sources == [] ==> allNodes == []
  {
    allNodes := [];
    for i := 0 to |sources|
      invariant allNodes == CollectNodes(sources[..i], fetch, b64decode)
    {
      var url := sources[i];
      match fetch(url) {
        case None =>
          // the failure is logged and the source contributes nothing
        case Some(content) =>
          var text := SelectText(content, b64decode);
          allNodes := allNodes + ExtractNodes(text);
      }
      CollectPrefix(sources, i, fetch, b64decode);
    }
    assert sources[..|sources|] == sources;
  }

  /** The tail of `main` (lines 69-82): dedupe the collected nodes, then build both artifacts. */
  method WriteArtifacts(allNodes: seq<string>) returns (out: Artifacts)
    requires forall k :: 0 <= k < |allNodes| ==> IsCleanNode(allNodes[k])
    ensures IsB64ArtifactOf(out.b64, out.plain)
    ensures allNodes == [] ==> out == Artifacts("", "\n")
    ensures IsMergedPlainText(out.plain, allNodes)
  {
    var unique := DedupeNodes(allNodes);
    var plain := PlainText(unique);
    MergedPlainText(unique, allNodes);
    out := Artifacts(plain, B64Artifact(plain));
    if allNodes == [] {
      EmptyArtifacts();
    }
  }

  /** With no nodes, `nodes.txt` is empty and `sub.txt` is a lone newline. */
  lemma EmptyArtifacts()
    ensures Distinct<string>([], {}) == []
    ensures PlainText([]) == ""
    ensures B64Artifact("") == "\n"
  {
    assert Utf8.Encode("") == [];
    assert Base64.Encode([]) == "";
  }

  /** The nodes of one more source extend the collection over a prefix of the sources. */
  lemma CollectPrefix(sources: seq<string>, i: int, fetch: string -> Option<string>,
                      b64decode: string -> Option<string>)
    requires 0 <= i < |sources|
    ensures CollectNodes(sources[..i + 1], fetch, b64decode)
         == CollectNodes(sources[..i], fetch, b64decode) + SourceNodes(sources[i], fetch, b64decode)
  {
    assert sources[..i + 1] == sources[..i] + [sources[i]];
    CollectAppend(sources[..i], [sources[i]], fetch, b64decode);
    CollectSingle(sources[i], fetch, b64decode);
  }

  /** The plaintext built from a first-occurrence list of the collected nodes has the merged-list properties. */
  lemma MergedPlainText(unique: seq<string>, all: seq<string>)
    requires forall k :: 0 <= k < |all| ==> IsCleanNode(all[k])
    requires IsFirstOccurrenceList(unique, all)
    ensures IsMergedPlainText(PlainText(unique), all)
  {
    FirstOccurrenceListClean(unique, all);
    PlainTextReextracts(unique);
    PlainTextShape(unique);
    PlainTextLines(unique);
    FirstOccurrenceListEmpty(unique, all);
    MergedFrom(PlainText(unique), unique, all);
  }

  /** The merged-list properties follow from those of the plaintext and of its node list. */
  lemma MergedFrom(plain: string, unique: seq<string>, all: seq<string>)
    requires ExtractNodes(plain) == unique && IsFirstOccurrenceList(unique, all)
    requires plain == "" <==> unique == []
    requires unique == [] <==> all == []
    requires unique != [] ==> Split(plain, '\n') == unique + [""]
    ensures IsMergedPlainText(plain, all)
  {
  }

  /** A first-occurrence list is empty exactly when its input is. */
  lemma FirstOccurrenceListEmpty(unique: seq<string>, all: seq<string>)
    requires IsFirstOccurrenceList(unique, all)
    ensures unique == [] <==> all == []
  {
    if all != [] {
      assert all[0] in unique;
    }
    if unique != [] {
      assert unique[0] in all;
    }
  }

  /** The values of a first-occurrence list of clean nodes are clean nodes. */
  lemma FirstOccurrenceListClean(unique: seq<string>, all: seq<string>)
    requires forall k :: 0 <= k < |all| ==> IsCleanNode(all[k])
    requires IsFirstOccurrenceList(unique, all)
    ensures forall k :: 0 <= k < |unique| ==> IsCleanNode(unique[k])
  {
    forall k | 0 <= k < |unique|
      ensures IsCleanNode(unique[k])
    {
      var j :| 0 <= j < |all| && all[j] == unique[k];
    }
  }
}
