/** The local-development publishing script: metadata files are copied to
    the web root with their `image` rewritten to a path the dev server
    serves, and the template list (one HTTP metadata URI per file, sorted
    by template id) is rebuilt from them. The directory listing is the
    parameter `names` and the parsed content of each file the parameter
    `read`. */
module LocalMetadata {
  import opened Wrappers
  import opened JsStrings
  import opened JsValues

  const DEV_BASE: string := "http://localhost:3000/metadata/"

  const ASSETS_PATH: string := "/assets/"

  /** The `properties` object of a metadata file. */
  datatype Properties = Properties(originalFilename: Value, rarity: Value, maxSupply: Value)

  /** The fields of a metadata file the script reads or writes; `None` for
      `properties` stands for a missing or `null` object. */
  datatype Metadata = Metadata(name: Value, image: Value, properties: Option<Properties>)

  /** `json?.properties?.originalFilename` */
  function OriginalFilename(json: Metadata): Value {
    if json.properties.Some? then json.properties.value.originalFilename else Undefined
  }

  // ---------------------------------------------------------------------
  // publishMetadataToPublic: the image rewrite
  // ---------------------------------------------------------------------

  /** `image.replace(/^\.\/?assets\//, '/assets/')`: a leading "./assets/"
      or ".assets/" becomes "/assets/"; any other string is kept. */
  function RewriteAssetsPath(image: string): (r: string)
    ensures !StartsWith(image, "./assets/") && !StartsWith(image, ".assets/") ==> r == image
  {
    if StartsWith(image, "./assets/") then ASSETS_PATH + image[9..]
    else if StartsWith(image, ".assets/") then ASSETS_PATH + image[8..]
    else image
  }

  /** What the loop does to one file's content: a truthy
      `originalFilename` decides the image; otherwise a string image has
      its relative assets prefix made absolute. */
  function RewriteImage(json: Metadata): (r: Metadata)
    ensures r.name == json.name && r.properties == json.properties
  {
    var original := OriginalFilename(json);
    if Truthy(original) then json.(image := Str(ASSETS_PATH + ToJsString(original)))
    else if json.image.Str? then json.(image := Str(RewriteAssetsPath(json.image.s)))
    else json
  }

  lemma RewriteAssetsPathCases(rest: string)
    ensures RewriteAssetsPath("./assets/" + rest) == "/assets/" + rest
    ensures RewriteAssetsPath(".assets/" + rest) == "/assets/" + rest
    ensures RewriteAssetsPath("/assets/" + rest) == "/assets/" + rest
  {
    RewriteDotSlash(rest);
    RewriteDot(rest);
    RewriteAbsolute(rest);
  }

  lemma RewriteDotSlash(rest: string)
    ensures RewriteAssetsPath("./assets/" + rest) == "/assets/" + rest
  {
    var a := "./assets/" + rest;
    assert a[..9] == "./assets/" && a[9..] == rest;
  }

  lemma RewriteDot(rest: string)
    ensures RewriteAssetsPath(".assets/" + rest) == "/assets/" + rest
  {
    var b := ".assets/" + rest;
    assert b[1] == 'a';
    assert !StartsWith(b, "./assets/");
    assert b[..8] == ".assets/" && b[8..] == rest;
  }

  lemma RewriteAbsolute(rest: string)
    ensures RewriteAssetsPath("/assets/" + rest) == "/assets/" + rest
  {
    var c := "/assets/" + rest;
    assert c[0] == '/';
    assert !StartsWith(c, "./assets/") && !StartsWith(c, ".assets/");
  }

  /** The rewritten image of a file with a truthy `originalFilename` is
      "/assets/" and that name; otherwise relative assets paths become
      absolute and any other image is kept. */
  lemma RewriteImageCases(json: Metadata, rest: string)
    ensures Truthy(OriginalFilename(json)) ==>
      RewriteImage(json).image == Str("/assets/" + ToJsString(OriginalFilename(json)))
    ensures !Truthy(OriginalFilename(json)) && (json.image == Str("./assets/" + rest) || json.image == Str(".assets/" + rest)) ==>
      RewriteImage(json).image == Str("/assets/" + rest)
    ensures !Truthy(OriginalFilename(json)) && !json.image.Str? ==> RewriteImage(json) == json
  {
    RewriteAssetsPathCases(rest);
  }

  /** Publishing twice gives what publishing once gives: a rewritten image
      starts with "/", which no rule rewrites. */
  lemma RewriteImageIdempotent(json: Metadata)
    ensures RewriteImage(RewriteImage(json)) == RewriteImage(json)
  {
    var once := RewriteImage(json);
    if !Truthy(OriginalFilename(json)) && json.image.Str? {
      var s := json.image.s;
      if StartsWith(s, "./assets/") {
        RewriteAssetsPathCases(s[9..]);
        assert once.image.s == "/assets/" + s[9..];
      } else if StartsWith(s, ".assets/") {
        RewriteAssetsPathCases(s[8..]);
        assert once.image.s == "/assets/" + s[8..];
      }
    }
  }

  // ---------------------------------------------------------------------
  // publishMetadataToPublic: the loop
  // ---------------------------------------------------------------------

  /** A published file: its name and its rewritten content. */
  datatype Entry = Entry(file: string, json: Metadata)

  /** `f.toLowerCase().endsWith('.json')` */
  predicate IsJsonFile(f: string) {
    EndsWith(Lower(f), ".json")
  }

  /** The listing filtered to JSON files, in listing order. */
  function JsonFiles(names: seq<string>): (r: seq<string>)
    ensures |r| <= |names|
    ensures forall i :: 0 <= i < |r| ==> IsJsonFile(r[i]) && r[i] in names
    ensures forall f :: f in names && IsJsonFile(f) ==> f in r
  {
    if names == [] then []
    else (if IsJsonFile(names[0]) then [names[0]] else []) + JsonFiles(names[1..])
  }

  /** What `publishMetadataToPublic` returns: one entry per JSON file, in
      listing order, each with its image rewritten. */
  function Published(names: seq<string>, read: string -> Metadata): (r: seq<Entry>)
    ensures |r| == |JsonFiles(names)|
  {
    var files := JsonFiles(names);
    seq(|files|, i requires 0 <= i < |files| => Entry(files[i], RewriteImage(read(files[i]))))
  }

  /** The loop of `publishMetadataToPublic`; writing each file out is not
      modelled. */
  method PublishMetadataToPublic(names: seq<string>, read: string -> Metadata) returns (published: seq<Entry>)
    ensures published == Published(names, read)
  {
    var files := JsonFiles(names);
    published := [];
    var i := 0;
    while i < |files|
      invariant 0 <= i <= |files|
      invariant |published| == i
      invariant forall k :: 0 <= k < i ==> published[k] == Entry(files[k], RewriteImage(read(files[k])))
    {
      var f := files[i];
      var json := read(f);
      var original := OriginalFilename(json);
      if Truthy(original) {
        json := json.(image := Str(ASSETS_PATH + ToJsString(original)));
      } else if json.image.Str? {
        json := json.(image := Str(RewriteAssetsPath(json.image.s)));
      }
      published := published + [Entry(f, json)];
      i := i + 1;
    }
  }

  /** Each published entry names a JSON file of the listing and carries
      that file's content with the image rewritten. */
  lemma PublishedEntries(names: seq<string>, read: string -> Metadata, i: nat)
    requires i < |Published(names, read)|
    ensures var e := Published(names, read)[i];
      e.file in names && IsJsonFile(e.file) && e.json == RewriteImage(read(e.file))
  {
  }

  // ---------------------------------------------------------------------
  // updateTemplatesHTTP
  // ---------------------------------------------------------------------

  /** `parseInt(path.parse(file).name, 10)`, `None` standing for NaN. */
  function FileId(file: string): Option<int>
    requires '/' !in file
  {
    ParseInt(BaseName(file))
  }

  /** `${id}` for a parsed id; NaN prints as "NaN". */
  function IdText(id: Option<int>): string {
    match id
    case Some(n) => IntToDecimal(n)
    case None => "NaN"
  }

  /** One entry of the template list. */
  datatype Template = Template(
    templateId: Option<int>,
    metadataURI: string,
    name: Value,
    filename: Value,
    rarity: Value,
    maxSupply: Value)

  /** `json?.properties?.rarity` */
  function Rarity(json: Metadata): Value {
    if json.properties.Some? then json.properties.value.rarity else Undefined
  }

  /** `json?.properties?.maxSupply` */
  function MaxSupply(json: Metadata): Value {
    if json.properties.Some? then json.properties.value.maxSupply else Undefined
  }

  /** The map step of `updateTemplatesHTTP` for one published entry. */
  function ToTemplate(entry: Entry): (t: Template)
    requires '/' !in entry.file
    ensures t.metadataURI == DEV_BASE + IdText(FileId(entry.file)) + ".json"
  {
    var id := FileId(entry.file);
    var json := entry.json;
    Template(
      id,
      DEV_BASE + IdText(id) + ".json",
      Or(json.name, Str("Template " + IdText(id))),
      Or(OriginalFilename(json), Str("")),
      Or(Rarity(json), Str("Common")),
      Coalesce(MaxSupply(json), Num(10)))
  }

  /** The defaults: a falsy name becomes "Template <id>", a falsy rarity
      "Common", and only a null or missing `maxSupply` becomes 10, so 0 is
      kept. */
  lemma ToTemplateDefaults(entry: Entry)
    requires '/' !in entry.file
    ensures var t := ToTemplate(entry);
      var json := entry.json;
      (!Truthy(json.name) ==> t.name == Str("Template " + IdText(FileId(entry.file))))
      && (Truthy(json.name) ==> t.name == json.name)
      && (!Truthy(Rarity(json)) ==> t.rarity == Str("Common"))
      && (Nullish(MaxSupply(json)) ==> t.maxSupply == Num(10))
      && (MaxSupply(json) == Num(0) ==> t.maxSupply == Num(0))
  {
  }

  /** A file named by its template id gets that id back, and its HTTP
      metadata URI ends with that same file name. */
  lemma FileIdOfCanonicalName(id: int)
    ensures '/' !in IntToDecimal(id) + ".json"
    ensures FileId(IntToDecimal(id) + ".json") == Some(id)
    ensures ToTemplate(Entry(IntToDecimal(id) + ".json", Metadata(Undefined, Undefined, None))).metadataURI
      == DEV_BASE + IntToDecimal(id) + ".json"
  {
    var stem := IntToDecimal(id);
    StemHasNoDot(id);
    ExtnameOfSplit(stem, ".json");
    assert stem == stem + [];
    ParseIntOfDecimal(id, []);
  }

  /** Decimal text holds digits and at most a leading '-'. */
  lemma StemHasNoDot(id: int)
    ensures '.' !in IntToDecimal(id) && '/' !in IntToDecimal(id)
    ensures IntToDecimal(id) != []
  {
    var s := IntToDecimal(id);
    if id < 0 {
      assert forall k :: 1 <= k < |s| ==> IsDigit(s[k]) by {
        assert forall k :: 1 <= k < |s| ==> s[k] == NatToDecimal(-id)[k - 1];
      }
    }
  }

  /** Every template has a numeric id. */
  predicate AllIds(ts: seq<Template>) {
    forall k :: 0 <= k < |ts| ==> ts[k].templateId.Some?
  }

  function Key(t: Template): int
    requires t.templateId.Some?
  {
    t.templateId.value
  }

  /** Ascending by template id. */
  predicate SortedById(ts: seq<Template>)
    requires AllIds(ts)
  {
    forall i, j :: 0 <= i < j < |ts| ==> Key(ts[i]) <= Key(ts[j])
  }

  /** Put `t` before the first entry whose id is not smaller; entries with
      equal ids keep their order. */
  function InsertById(t: Template, ts: seq<Template>): (r: seq<Template>)
    requires t.templateId.Some? && AllIds(ts)
    ensures |r| == |ts| + 1 && AllIds(r)
    ensures multiset(r) == multiset(ts) + multiset{t}
  {
    if ts == [] || Key(t) <= Key(ts[0]) then [t] + ts
    else
      assert ts == [ts[0]] + ts[1..];
      [ts[0]] + InsertById(t, ts[1..])
  }

  /** Inserting into a sorted list keeps it sorted; the new head is the
      inserted template or the old head. */
  lemma {:induction false} InsertByIdSorted(t: Template, ts: seq<Template>)
    requires t.templateId.Some? && AllIds(ts) && SortedById(ts)
    ensures SortedById(InsertById(t, ts))
    ensures InsertById(t, ts)[0] == t || (ts != [] && InsertById(t, ts)[0] == ts[0])
  {
    if ts != [] && Key(t) > Key(ts[0]) {
      var rest := InsertById(t, ts[1..]);
      InsertByIdSorted(t, ts[1..]);
      var r := [ts[0]] + rest;
      assert Key(ts[0]) <= Key(rest[0]);
      forall i, j | 0 <= i < j < |r|
        ensures Key(r[i]) <= Key(r[j])
      {
        if i > 0 {
          assert r[i] == rest[i - 1] && r[j] == rest[j - 1];
        } else if j > 1 {
          assert r[j] == rest[j - 1];
          assert Key(rest[0]) <= Key(rest[j - 1]);
        }
      }
    }
  }

  /** `templates.sort((a, b) => a.templateId - b.templateId)`, stable as
      `Array.prototype.sort` is. */
  function SortById(ts: seq<Template>): (r: seq<Template>)
    requires AllIds(ts)
    ensures |r| == |ts| && AllIds(r)
    ensures multiset(r) == multiset(ts)
  {
    if ts == [] then []
    else
      assert ts == [ts[0]] + ts[1..];
      InsertById(ts[0], SortById(ts[1..]))
  }

  /** The sorted list is in ascending id order. */
  lemma {:induction false} SortByIdSorted(ts: seq<Template>)
    requires AllIds(ts)
    ensures SortedById(SortById(ts))
  {
    if ts != [] {
      SortByIdSorted(ts[1..]);
      InsertByIdSorted(ts[0], SortById(ts[1..]));
    }
  }

  /** What `updateTemplatesHTTP` writes besides the list. */
  datatype TemplateConfig = TemplateConfig(
    folderCid: Value,
    baseURI: string,
    gatewayURL: string,
    uploadMethod: string,
    templates: seq<Template>)

  /** Every published file name parses as an integer: otherwise a NaN id
      makes the comparator inconsistent and the order engine-defined. */
  predicate IdsParse(published: seq<Entry>) {
    forall k :: 0 <= k < |published| ==> '/' !in published[k].file && FileId(published[k].file).Some?
  }

  /** `updateTemplatesHTTP(published)`; writing the file is not modelled. */
  function UpdateTemplatesHTTP(published: seq<Entry>): (config: TemplateConfig)
    requires IdsParse(published)
    ensures |config.templates| == |published| && AllIds(config.templates)
    ensures config.folderCid == Null && config.baseURI == DEV_BASE && config.gatewayURL == DEV_BASE
    ensures config.uploadMethod == "http-local-dev"
  {
    var mapped := seq(|published|, k requires 0 <= k < |published| => ToTemplate(published[k]));
    TemplateConfig(Null, DEV_BASE, DEV_BASE, "http-local-dev", SortById(mapped))
  }

  /** The list has one template per published file, is sorted by id, and
      holds exactly the mapped entries; each URI is the dev base, the id and
      ".json". */
  lemma UpdateTemplatesProperties(published: seq<Entry>)
    requires IdsParse(published)
    ensures var ts := UpdateTemplatesHTTP(published).templates;
      |ts| == |published|
      && AllIds(ts)
      && SortedById(ts)
      && multiset(ts) == multiset(seq(|published|, k requires 0 <= k < |published| => ToTemplate(published[k])))
      && (forall k :: 0 <= k < |ts| ==> ts[k].metadataURI == DEV_BASE + IntToDecimal(ts[k].templateId.value) + ".json")
  {
    var mapped := seq(|published|, k requires 0 <= k < |published| => ToTemplate(published[k]));
    var ts := UpdateTemplatesHTTP(published).templates;
    SortByIdSorted(mapped);
    forall k | 0 <= k < |ts|
      ensures ts[k].metadataURI == DEV_BASE + IntToDecimal(ts[k].templateId.value) + ".json"
    {
      assert ts[k] in multiset(mapped);
      var m :| 0 <= m < |mapped| && mapped[m] == ts[k];
      assert FileId(published[m].file) == ts[k].templateId;
    }
  }
}
