/**
 * Prompt builder (tools/convert.py, _build_prompt): the parts of the user
 * message that are computed rather than fixed prose — the gateway line,
 * the bounded export snippet and the two sorted file lists.
 */
module Prompt {
  import opened Wrappers
  import opened Text
  import opened Paths
  import Bundle
  import Framework

  // ---------------------------------------------------------------------
  // Where the regex <MultiProtocolGateway[^>]*name=['"][^'"]+['"][^>]*> matches

  const GatewayOpen := "<MultiProtocolGateway"

  predicate IsQuote(c: char) { c == '\'' || c == '"' }

  /** t[lo..hi] holds no `c`. */
  predicate Lacks(t: string, lo: nat, hi: nat, c: char)
    requires lo <= hi <= |t|
  {
    forall k :: lo <= k < hi ==> t[k] != c
  }

  /** t[lo..hi] holds no quote character. */
  predicate LacksQuote(t: string, lo: nat, hi: nat)
    requires lo <= hi <= |t|
  {
    forall k :: lo <= k < hi ==> !IsQuote(t[k])
  }

  /**
   * From `a` (just after the tag name), `[^>]*` reaches `p`, where
   * `name=` and a quote start; `[^'"]+` then runs to a quote at `q`, and
   * `[^>]*>` needs some '>' after it.
   */
  predicate NameAttributeAt(t: string, a: nat, p: nat)
    requires a <= p
  {
    && p + 6 <= |t|
    && Lacks(t, a, p, '>')
    && t[p..p + 5] == "name="
    && IsQuote(t[p + 5])
    && exists q :: p + 6 < q < |t| && LacksQuote(t, p + 6, q) && IsQuote(t[q]) && '>' in t[q + 1..]
  }

  /** The regex matches starting at index i. */
  predicate GatewayTagAt(t: string, i: nat)
  {
    var a := i + |GatewayOpen|;
    && a <= |t|
    && t[i..a] == GatewayOpen
    && exists p :: a <= p <= |t| - 6 && NameAttributeAt(t, a, p)
  }

  /** re.search from index `from`: the first index where the regex matches. */
  function FindGatewayTag(t: string, from: nat): (r: Option<nat>)
    requires from <= |t|
    ensures r.Some? ==> from <= r.value < |t| && GatewayTagAt(t, r.value)
    ensures r.Some? ==> forall j :: from <= j < r.value ==> !GatewayTagAt(t, j)
    ensures r.None? ==> forall j :: from <= j < |t| ==> !GatewayTagAt(t, j)
    decreases |t| - from
  {
    if from == |t| then None
    else if GatewayTagAt(t, from) then Some(from)
    else FindGatewayTag(t, from + 1)
  }

  function FirstGatewayTag(t: string): Option<nat>
  {
    FindGatewayTag(t, 0)
  }

  // ---------------------------------------------------------------------
  // The snippet window

  const Before := 800
  const After := 5000
  const Fallback := 6000

  datatype Window = Window(start: nat, end: nat)

  /**
   * [max(0, m - 800), min(len, m + 5000)) around the first match m, or the
   * first 6000 characters when there is none.
   */
  function SnippetWindow(t: string): (w: Window)
    ensures w.start <= w.end <= |t|
    ensures FirstGatewayTag(t).Some? ==>
              var m := FirstGatewayTag(t).value;
              && w.start <= m < w.end
              && m - w.start <= Before && w.end - m <= After
              && (w.start == 0 || m - w.start == Before)
              && (w.end == |t| || w.end - m == After)
    ensures FirstGatewayTag(t).None? ==>
              w.start == 0 && w.end <= Fallback && (w.end == |t| || w.end == Fallback)
  {
    match FirstGatewayTag(t)
    case Some(m) =>
      Window(if m < Before then 0 else m - Before, if m + After < |t| then m + After else |t|)
    case None =>
      Window(0, if |t| < Fallback then |t| else Fallback)
  }

  function Snippet(t: string): string
  {
    var w := SnippetWindow(t);
    t[w.start..w.end]
  }

  /** A slice of a slice is a slice of the whole. */
  lemma SliceOfSlice(t: string, a: nat, b: nat, i: nat, j: nat)
    requires a <= b <= |t| && i <= j <= b - a
    ensures t[a..b][i..j] == t[a + i..a + j]
  {
    forall k | 0 <= k < j - i ensures t[a..b][i..j][k] == t[a + i..a + j][k] {
      assert t[a..b][i..j][k] == t[a..b][i + k] == t[a + i + k];
    }
  }

  /**
   * The snippet never exceeds 6000 characters, and when a gateway tag was
   * found it contains the tag's opening `<MultiProtocolGateway`.
   */
  lemma SnippetBounds(t: string)
    ensures |Snippet(t)| <= Fallback
    ensures FirstGatewayTag(t).Some? ==>
              var w := SnippetWindow(t);
              var off := FirstGatewayTag(t).value - w.start;
              off + |GatewayOpen| <= |Snippet(t)| && Snippet(t)[off..off + |GatewayOpen|] == GatewayOpen
  {
    if FirstGatewayTag(t).Some? {
      var m := FirstGatewayTag(t).value;
      var w := SnippetWindow(t);
      assert GatewayTagAt(t, m);
      var off := m - w.start;
      assert m + |GatewayOpen| <= w.end;
      SliceOfSlice(t, w.start, w.end, off, off + |GatewayOpen|);
      assert w.start + off == m;
    }
  }

  // ---------------------------------------------------------------------
  // sorted() over a set of keys

  predicate IsSorted(s: seq<string>)
  {
    forall i, j :: 0 <= i < j < |s| ==> LexLessEq(s[i], s[j])
  }

  predicate IsLeast(x: string, keys: set<string>)
  {
    x in keys && forall y :: y in keys ==> LexLessEq(x, y)
  }

  lemma {:induction false} LeastExists(keys: set<string>)
    requires keys != {}
    ensures exists x :: IsLeast(x, keys)
    decreases keys
  {
    var y :| y in keys;
    LexTotal(y, y);
    var rest := keys - {y};
    if rest != {} {
      LeastExists(rest);
      var z :| IsLeast(z, rest);
      LexTotal(y, z);
      if LexLessEq(y, z) {
        forall w | w in keys ensures LexLessEq(y, w) {
          if w != y { LexTransitive(y, z, w); }
        }
        assert IsLeast(y, keys);
      } else {
        assert IsLeast(z, keys);
      }
    } else {
      assert keys == {y};
      assert IsLeast(y, keys);
    }
  }

  lemma LeastUnique(keys: set<string>)
    ensures forall x, y :: IsLeast(x, keys) && IsLeast(y, keys) ==> x == y
  {
    forall x, y | IsLeast(x, keys) && IsLeast(y, keys) ensures x == y {
      LexAntisymmetric(x, y);
    }
  }

  /** sorted(keys): the keys in code-point order, each once. */
  function SortedKeys(keys: set<string>): (r: seq<string>)
    ensures IsSorted(r)
    ensures |r| == |keys|
    ensures forall x :: x in r <==> x in keys
    decreases keys
  {
    if keys == {} then []
    else
      LeastExists(keys);
      LeastUnique(keys);
      var x :| IsLeast(x, keys);
      var rest := SortedKeys(keys - {x});
      [x] + rest
  }

  /** A sorted listing holds each key once. */
  lemma SortedKeysNoDuplicates(keys: set<string>)
    ensures Bundle.NoDuplicates(SortedKeys(keys))
  {
    var r := SortedKeys(keys);
    assert |set x | x in r| == |keys| by {
      assert (set x | x in r) == keys;
    }
    forall i, j | 0 <= i < j < |r| ensures r[i] != r[j] {
      if r[i] == r[j] {
        DistinctBound(r, i, j);
      }
    }
  }

  /** A sequence with a repeated value has fewer distinct values than positions. */
  lemma {:induction false} DistinctBound(r: seq<string>, i: nat, j: nat)
    requires i < j < |r| && r[i] == r[j]
    ensures |set x | x in r| < |r|
  {
    var without := r[..j] + r[j + 1..];
    assert (set x | x in r) == (set x | x in without) by {
      assert r == r[..j] + [r[j]] + r[j + 1..];
      assert r[j] == without[i];
    }
    CardinalityBound(without);
  }

  lemma {:induction false} CardinalityBound(s: seq<string>)
    ensures |set x | x in s| <= |s|
  {
    if s != [] {
      CardinalityBound(s[1..]);
      assert (set x | x in s) == {s[0]} + (set x | x in s[1..]);
    }
  }

  // ---------------------------------------------------------------------
  // The computed parts of the user message

  datatype PromptParts = PromptParts(
    app: string,
    exportPath: Path,
    gateways: string,
    snippet: string,
    localFileList: seq<string>,
    localFiles: map<string, string>,
    frameworkFileList: seq<string>,
    frameworkContext: map<string, string>)

  const NoGateways := "(none detected)"

  function GatewayLine(names: seq<string>): string
  {
    if names == [] then NoGateways else JoinWith(names, ", ")
  }

  /** Framework keys listed in the prompt: those not starting with '_'. */
  function FrameworkFileList(ctx: map<string, string>): seq<string>
  {
    SortedKeys(set k | k in ctx && !StartsWith(k, "_"))
  }

  function BuildPrompt(app: string, bundle: Bundle.ExportBundle, ctx: map<string, string>): (p: PromptParts)
    ensures |p.snippet| <= Fallback
    ensures IsSorted(p.localFileList)
    ensures forall x :: x in p.localFileList <==> x in bundle.localFiles
    ensures IsSorted(p.frameworkFileList)
    ensures forall x :: x in p.frameworkFileList <==> x in ctx && !StartsWith(x, "_")
    ensures p.localFiles == bundle.localFiles && p.frameworkContext == ctx
  {
    SnippetBounds(bundle.exportText);
    PromptParts(
      app,
      bundle.exportPath,
      GatewayLine(bundle.gatewayNames),
      Snippet(bundle.exportText),
      SortedKeys(bundle.localFiles.Keys),
      bundle.localFiles,
      FrameworkFileList(ctx),
      ctx)
  }

  /** When the framework directory is missing, the prompt lists no framework file. */
  lemma MissingFrameworkListsNothing(note: string)
    ensures FrameworkFileList(map[Framework.NoteKey := note]) == []
  {
    var keys := set k | k in map[Framework.NoteKey := note] && !StartsWith(k, "_");
    assert keys == {} by {
      forall k | k in map[Framework.NoteKey := note] ensures StartsWith(k, "_") {
        assert k == Framework.NoteKey;
      }
    }
  }
}
