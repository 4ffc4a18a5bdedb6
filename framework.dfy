/**
 * Framework context reader (tools/convert.py, _read_target_framework).
 * The directory walk (sorted rglob) is given as a sequence of walk entries;
 * a file whose read raised carries no text.
 */
module Framework {
  import opened Wrappers
  import opened Text
  import opened Paths

  /** Largest text, in characters, included verbatim. */
  const SizeLimit := 20000
  const NoteKey := "_note"
  const TopFileKey := "MPGW_GWS_Framework.xml"

  /** One path produced by the walk, relative to the target root. */
  datatype WalkEntry = WalkEntry(rel: string, isDir: bool, text: Option<string>)

  /** Placeholder for a text over the limit; it states the size. */
  function Omitted(size: nat): string
  {
    "/* omitted (size=" + NatToString(size) + " bytes) */\n"
  }

  function NotFoundNote(targetRoot: Path): string
  {
    "Framework directory not found at: " + Render(targetRoot + ["Framework"])
  }

  /** The walk entries the loop stores: readable files. */
  predicate IsStored(e: WalkEntry)
  {
    !e.isDir && e.text.Some?
  }

  /** What the loop stores for a readable text. */
  function StoredText(text: string): string
  {
    if |text| <= SizeLimit then text else Omitted(|text|)
  }

  /** Verbatim up to the limit, otherwise exactly the placeholder with the size. */
  lemma StoredTextBounded(text: string)
    ensures |text| <= SizeLimit ==> StoredText(text) == text
    ensures |text| > SizeLimit ==> StoredText(text) == Omitted(|text|)
    ensures |StoredText(text)| <= SizeLimit || exists n :: n > SizeLimit && StoredText(text) == Omitted(n)
  {
  }

  /** The dictionary after the loop over the walk. */
  function Collected(walk: seq<WalkEntry>): map<string, string>
  {
    if walk == [] then map[]
    else
      var m := Collected(walk[..|walk| - 1]);
      var e := walk[|walk| - 1];
      if IsStored(e) then m[e.rel := StoredText(e.text.value)] else m
  }

  /** A key is present exactly when some readable file of the walk has that relative path. */
  lemma {:induction false} CollectedKeys(walk: seq<WalkEntry>, key: string)
    ensures key in Collected(walk) <==>
            exists i :: 0 <= i < |walk| && IsStored(walk[i]) && walk[i].rel == key
  {
    if walk != [] {
      var init := walk[..|walk| - 1];
      CollectedKeys(init, key);
      if exists i :: 0 <= i < |walk| && IsStored(walk[i]) && walk[i].rel == key {
        var i :| 0 <= i < |walk| && IsStored(walk[i]) && walk[i].rel == key;
        if i < |init| {
          assert init[i] == walk[i];
        }
      }
      if exists i :: 0 <= i < |init| && IsStored(init[i]) && init[i].rel == key {
        var i :| 0 <= i < |init| && IsStored(init[i]) && init[i].rel == key;
        assert walk[i] == init[i];
      }
    }
  }

  /** Each stored value is within the size limit or is a size placeholder. */
  lemma {:induction false} CollectedBounded(walk: seq<WalkEntry>)
    ensures forall key :: key in Collected(walk) ==>
              |Collected(walk)[key]| <= SizeLimit || exists n :: n > SizeLimit && Collected(walk)[key] == Omitted(n)
  {
    if walk != [] {
      CollectedBounded(walk[..|walk| - 1]);
      var e := walk[|walk| - 1];
      if IsStored(e) {
        StoredTextBounded(e.text.value);
      }
    }
  }

  /** The value under a relative path comes from the last walk entry with that path. */
  lemma {:induction false} CollectedLastWins(walk: seq<WalkEntry>, i: nat)
    requires i < |walk| && IsStored(walk[i])
    requires forall j :: i < j < |walk| ==> !(IsStored(walk[j]) && walk[j].rel == walk[i].rel)
    ensures walk[i].rel in Collected(walk)
    ensures Collected(walk)[walk[i].rel] == StoredText(walk[i].text.value)
  {
    if i < |walk| - 1 {
      var init := walk[..|walk| - 1];
      assert init[i] == walk[i];
      forall j | i < j < |init|
        ensures !(IsStored(init[j]) && init[j].rel == init[i].rel)
      {
        assert init[j] == walk[j];
      }
      CollectedLastWins(init, i);
    }
  }

  /**
   * _read_target_framework. `fwExists` says whether <target>/Framework exists,
   * `top` is the text of the top-level framework file when it exists.
   */
  method ReadTargetFramework(targetRoot: Path, fwExists: bool, walk: seq<WalkEntry>, top: Option<string>)
    returns (ctx: map<string, string>)
    ensures !fwExists ==> ctx.Keys == {NoteKey} && ctx[NoteKey] == NotFoundNote(targetRoot)
    ensures fwExists && top.None? ==> ctx == Collected(walk)
    ensures fwExists && top.Some? ==> ctx == Collected(walk)[TopFileKey := top.value]
  {
    if !fwExists {
      return map[NoteKey := NotFoundNote(targetRoot)];
    }
    ctx := map[];
    for i := 0 to |walk|
      invariant ctx == Collected(walk[..i])
    {
      assert walk[..i + 1][..i] == walk[..i];
      var e := walk[i];
      if e.isDir {
        continue;
      }
      if e.text.None? {
        continue;
      }
      var text := e.text.value;
      if |text| <= SizeLimit {
        ctx := ctx[e.rel := text];
      } else {
        ctx := ctx[e.rel := Omitted(|text|)];
      }
    }
    assert walk[..|walk|] == walk;
    if top.Some? {
      ctx := ctx[TopFileKey := top.value];
    }
  }
}
