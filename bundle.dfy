/**
 * Bundle reader (tools/convert.py, _find_mpgw_names and _parse_export_bundle).
 * The parsed XML tree is given as the sequence of its elements in document
 * order (what ElementTree's iter() visits); the disk is a map from resolved
 * paths to their decoded text.
 */
module Bundle {
  import opened Wrappers
  import opened Text
  import opened Paths

  /** One XML element: its (possibly namespace-qualified) tag and its attributes. */
  datatype Element = Element(tag: string, attrib: map<string, string>)

  /** The parsed export: source path, raw text, local:/// files and gateway names. */
  datatype ExportBundle = ExportBundle(
    exportPath: Path,
    exportText: string,
    localFiles: map<string, string>,
    gatewayNames: seq<string>)

  /** el.attrib.get(key, "") */
  function Attr(el: Element, key: string): string
  {
    if key in el.attrib then el.attrib[key] else ""
  }

  // ---------------------------------------------------------------------
  // Gateway names

  /** An element that contributes a gateway name. */
  predicate IsNamedGateway(el: Element)
  {
    EndsWith(el.tag, "MultiProtocolGateway") && "name" in el.attrib
  }

  /** The names collected by the first loop, duplicates included. */
  function RawNames(els: seq<Element>): seq<string>
  {
    if els == [] then []
    else
      var last := els[|els| - 1];
      RawNames(els[..|els| - 1]) + (if IsNamedGateway(last) then [last.attrib["name"]] else [])
  }

  /** A name is collected exactly when some gateway element carries it. */
  lemma {:induction false} RawNamesSpec(els: seq<Element>, x: string)
    ensures x in RawNames(els) <==>
            exists k :: 0 <= k < |els| && IsNamedGateway(els[k]) && els[k].attrib["name"] == x
  {
    if els != [] {
      var init := els[..|els| - 1];
      RawNamesSpec(init, x);
      if x in RawNames(init) {
        var k :| 0 <= k < |init| && IsNamedGateway(init[k]) && init[k].attrib["name"] == x;
        assert els[k] == init[k];
      }
      if exists k :: 0 <= k < |els| && IsNamedGateway(els[k]) && els[k].attrib["name"] == x {
        var k :| 0 <= k < |els| && IsNamedGateway(els[k]) && els[k].attrib["name"] == x;
        if k < |init| {
          assert init[k] == els[k];
        }
      }
    }
  }

  /** Stable de-duplication: keep each value at its first occurrence. */
  function Unique(s: seq<string>): seq<string>
  {
    if s == [] then []
    else
      var u := Unique(s[..|s| - 1]);
      if s[|s| - 1] in u then u else u + [s[|s| - 1]]
  }

  predicate NoDuplicates(s: seq<string>)
  {
    forall i, j :: 0 <= i < j < |s| ==> s[i] != s[j]
  }

  /** Every value of `s` occurs in Unique(s) and nothing else does. */
  lemma {:induction false} UniqueSameElements(s: seq<string>)
    ensures forall x :: x in Unique(s) <==> x in s
  {
    if s != [] {
      var init := s[..|s| - 1];
      UniqueSameElements(init);
      assert s == init + [s[|s| - 1]];
    }
  }

  /** Unique(s) holds each value once. */
  lemma {:induction false} UniqueNoDuplicates(s: seq<string>)
    ensures NoDuplicates(Unique(s))
  {
    if s != [] {
      UniqueNoDuplicates(s[..|s| - 1]);
    }
  }

  /**
   * Unique(s) lists the values in the order of their first occurrence in s,
   * so it is the subsequence of s made of the first occurrences.
   */
  lemma {:induction false} UniqueFirstOccurrenceOrder(s: seq<string>)
    ensures forall x :: x in Unique(s) ==> x in s
    ensures forall i, j :: 0 <= i < j < |Unique(s)| ==>
              FirstIndex(s, Unique(s)[i]) < FirstIndex(s, Unique(s)[j])
  {
    UniqueSameElements(s);
    if s != [] {
      var init, x := s[..|s| - 1], s[|s| - 1];
      assert s == init + [x];
      UniqueFirstOccurrenceOrder(init);
      UniqueSameElements(init);
      var u := Unique(init);
      forall i, j | 0 <= i < j < |Unique(s)|
        ensures FirstIndex(s, Unique(s)[i]) < FirstIndex(s, Unique(s)[j])
      {
        FirstIndexOfExtension(init, u[i], x);
        if j < |u| {
          FirstIndexOfExtension(init, u[j], x);
        } else {
          assert x !in init;
          assert FirstIndex(s, x) == |init|;
        }
      }
    }
  }

  /** _find_mpgw_names: collect the gateway names, then drop repeats in order. */
  method FindGatewayNames(els: seq<Element>) returns (out: seq<string>)
    ensures out == Unique(RawNames(els))
  {
    var names: seq<string> := [];
    for i := 0 to |els|
      invariant names == RawNames(els[..i])
    {
      assert els[..i + 1][..i] == els[..i];
      if EndsWith(els[i].tag, "MultiProtocolGateway") && "name" in els[i].attrib {
        names := names + [els[i].attrib["name"]];
      }
    }
    assert els[..|els|] == els;
    var seen: set<string> := {};
    out := [];
    for i := 0 to |names|
      invariant out == Unique(names[..i])
      invariant forall x :: x in seen <==> x in out
    {
      assert names[..i + 1][..i] == names[..i];
      if names[i] !in seen {
        seen := seen + {names[i]};
        out := out + [names[i]];
      }
    }
    assert names[..|names|] == names;
  }

  // ---------------------------------------------------------------------
  // Bundled local:/// files

  const LocalScheme := "local:///"

  /** The filter of the loop in _parse_export_bundle. */
  predicate IsBundledFile(el: Element)
  {
    && EndsWith(el.tag, "file")
    && StartsWith(Attr(el, "name"), LocalScheme)
    && (Attr(el, "location") == "" || Attr(el, "location") == "local")
    && Attr(el, "src") != ""
  }

  /** The text recorded for a source file that is not on disk. */
  function MissingFile(path: string): string
  {
    "/* MISSING FILE: expected at " + path + " */\n"
  }

  /** What a bundled element records: the file's text, or the placeholder. */
  function BundledText(el: Element, exportDir: Path, disk: map<Path, string>): string
  {
    var src := Attr(el, "src");
    var key := Resolve(exportDir, src);
    if key in disk then disk[key] else MissingFile(JoinText(exportDir, src))
  }

  /** The local-files dictionary after the loop over `els`. */
  function LocalFiles(els: seq<Element>, exportDir: Path, disk: map<Path, string>): map<string, string>
  {
    if els == [] then map[]
    else
      var m := LocalFiles(els[..|els| - 1], exportDir, disk);
      var last := els[|els| - 1];
      if IsBundledFile(last) then m[Attr(last, "name") := BundledText(last, exportDir, disk)] else m
  }

  /** `el` is a bundled file element recorded under `name`. */
  predicate RecordsName(el: Element, name: string)
  {
    IsBundledFile(el) && Attr(el, "name") == name
  }

  /** A name is a key exactly when some element passes the filter with it. */
  lemma {:induction false} LocalFilesKeys(els: seq<Element>, exportDir: Path, disk: map<Path, string>, name: string)
    ensures name in LocalFiles(els, exportDir, disk) <==>
            exists k :: 0 <= k < |els| && RecordsName(els[k], name)
  {
    if els != [] {
      var init := els[..|els| - 1];
      LocalFilesKeys(init, exportDir, disk, name);
      if exists k :: 0 <= k < |els| && RecordsName(els[k], name) {
        var k :| 0 <= k < |els| && RecordsName(els[k], name);
        if k < |init| {
          assert init[k] == els[k];
        }
      }
      if exists k :: 0 <= k < |init| && RecordsName(init[k], name) {
        var k :| 0 <= k < |init| && RecordsName(init[k], name);
        assert els[k] == init[k];
      }
    }
  }

  /** The value under a name is what the LAST element recorded under it gives. */
  lemma {:induction false} LocalFilesLastWins(els: seq<Element>, exportDir: Path, disk: map<Path, string>, name: string, k: nat)
    requires k < |els| && RecordsName(els[k], name)
    requires forall j :: k < j < |els| ==> !RecordsName(els[j], name)
    ensures name in LocalFiles(els, exportDir, disk)
    ensures LocalFiles(els, exportDir, disk)[name] == BundledText(els[k], exportDir, disk)
  {
    if k < |els| - 1 {
      var init := els[..|els| - 1];
      assert init[k] == els[k];
      forall j | k < j < |init|
        ensures !RecordsName(init[j], name)
      {
        assert init[j] == els[j];
      }
      LocalFilesLastWins(init, exportDir, disk, name, k);
      assert !RecordsName(els[|els| - 1], name);
    }
  }

  /** Every recorded value is the file's text on disk or the missing-file placeholder. */
  lemma BundledTextIsFileOrPlaceholder(el: Element, exportDir: Path, disk: map<Path, string>)
    ensures var key := Resolve(exportDir, Attr(el, "src"));
      && (key in disk ==> BundledText(el, exportDir, disk) == disk[key])
      && (key !in disk ==> BundledText(el, exportDir, disk) == MissingFile(JoinText(exportDir, Attr(el, "src"))))
  {
  }

  /** The local-file loop of _parse_export_bundle. */
  method CollectLocalFiles(els: seq<Element>, exportDir: Path, disk: map<Path, string>)
    returns (files: map<string, string>)
    ensures files == LocalFiles(els, exportDir, disk)
    ensures forall name :: name in files ==> StartsWith(name, LocalScheme)
  {
    files := map[];
    for i := 0 to |els|
      invariant files == LocalFiles(els[..i], exportDir, disk)
      invariant forall name :: name in files ==> StartsWith(name, LocalScheme)
    {
      assert els[..i + 1][..i] == els[..i];
      var el := els[i];
      if !EndsWith(el.tag, "file") {
        continue;
      }
      var name := Attr(el, "name");
      var src := Attr(el, "src");
      var location := Attr(el, "location");
      if !StartsWith(name, LocalScheme) {
        continue;
      }
      if location != "" && location != "local" {
        continue;
      }
      if src == "" {
        continue;
      }
      var srcPath := Resolve(exportDir, src);
      if srcPath in disk {
        files := files[name := disk[srcPath]];
      } else {
        files := files[name := MissingFile(JoinText(exportDir, src))];
      }
    }
    assert els[..|els|] == els;
  }

  /** _parse_export_bundle, given the export's text already parsed into `els`. */
  method ParseExportBundle(exportPath: Path, exportText: string, els: seq<Element>, disk: map<Path, string>)
    returns (bundle: ExportBundle)
    ensures bundle.exportPath == exportPath && bundle.exportText == exportText
    ensures bundle.localFiles == LocalFiles(els, Parent(exportPath), disk)
    ensures bundle.gatewayNames == Unique(RawNames(els))
  {
    var localFiles := CollectLocalFiles(els, Parent(exportPath), disk);
    var names := FindGatewayNames(els);
    bundle := ExportBundle(exportPath, exportText, localFiles, names);
  }
}
