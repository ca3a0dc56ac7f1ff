/** The rules the three upload scripts share, each script carrying its own
    identical copy: which rarity and supply an image gets from its position,
    the MIME type of a file, and the display name, description and traits
    derived from a file's name. Case mapping is ASCII only. */
module UploadRules {
  import opened Wrappers
  import opened JsStrings

  const COMMON: string := "Common"
  const UNCOMMON: string := "Uncommon"
  const RARE: string := "Rare"
  const EPIC: string := "Epic"

  // ---------------------------------------------------------------------
  // Rarity and supply
  // ---------------------------------------------------------------------

  /** `getRarity(index, total)`: the first image is Common, the last one
      Epic (which wins over Rare when there are two), the second one Rare
      and every other one Uncommon. */
  function GetRarity(index: int, total: int): (r: string)
    ensures r == COMMON <==> index == 0
    ensures r == EPIC <==> index != 0 && index == total - 1
    ensures r == RARE <==> index == 1 && total != 2
    ensures r == UNCOMMON <==> index != 0 && index != 1 && index != total - 1
  {
    if index == 0 then COMMON
    else if index == total - 1 then EPIC
    else if index == 1 then RARE
    else UNCOMMON
  }

  /** The rarities a collection of `total` images receives, in file order. */
  function Rarities(total: nat): (rs: seq<string>)
    ensures |rs| == total
    ensures forall i :: 0 <= i < total ==> rs[i] == GetRarity(i, total)
  {
    seq(total, i requires 0 <= i < total => GetRarity(i, total))
  }

  function Repeat(n: nat, x: string): (rs: seq<string>)
    ensures |rs| == n && forall i :: 0 <= i < n ==> rs[i] == x
  {
    seq(n, i requires 0 <= i < n => x)
  }

  /** One Common first, then Rare, then Uncommon up to the last image,
      which is Epic; a pair is Common and Epic, a single image Common. */
  lemma RarityLayout(total: nat)
    ensures total == 1 ==> Rarities(total) == [COMMON]
    ensures total == 2 ==> Rarities(total) == [COMMON, EPIC]
    ensures total >= 3 ==> Rarities(total) == [COMMON, RARE] + Repeat(total - 3, UNCOMMON) + [EPIC]
  {
    if total >= 3 {
      var rs := Rarities(total);
      var layout := [COMMON, RARE] + Repeat(total - 3, UNCOMMON) + [EPIC];
      assert |layout| == total;
      forall i | 0 <= i < total
        ensures rs[i] == layout[i]
      {
        if 2 <= i < total - 1 {
          assert layout[i] == Repeat(total - 3, UNCOMMON)[i - 2];
        }
      }
    }
  }

  lemma {:induction false} RepeatCount(n: nat, x: string, y: string)
    ensures multiset(Repeat(n, x))[y] == if x == y then n else 0
  {
    if n > 0 {
      RepeatCount(n - 1, x, y);
      assert Repeat(n, x) == Repeat(n - 1, x) + [x];
    }
  }

  /** A collection of two or more images holds exactly one Common and one
      Epic image; from three on exactly one Rare and the rest Uncommon. */
  lemma RarityCounts(total: nat)
    requires total >= 2
    ensures multiset(Rarities(total))[COMMON] == 1
    ensures multiset(Rarities(total))[EPIC] == 1
    ensures multiset(Rarities(total))[RARE] == if total == 2 then 0 else 1
    ensures multiset(Rarities(total))[UNCOMMON] == if total == 2 then 0 else total - 3
  {
    RarityLayout(total);
    if total >= 3 {
      var u := Repeat(total - 3, UNCOMMON);
      RepeatCount(total - 3, UNCOMMON, COMMON);
      RepeatCount(total - 3, UNCOMMON, EPIC);
      RepeatCount(total - 3, UNCOMMON, RARE);
      RepeatCount(total - 3, UNCOMMON, UNCOMMON);
      assert multiset(Rarities(total)) == multiset([COMMON, RARE]) + multiset(u) + multiset([EPIC]);
    }
  }

  /** `getMaxSupply(rarity)`: 50, 30, 20 and 10 copies from Common to Epic,
      25 for any other text. */
  function GetMaxSupply(rarity: string): (n: nat)
    ensures n == 25 <==> rarity != COMMON && rarity != UNCOMMON && rarity != RARE && rarity != EPIC
  {
    if rarity == COMMON then 50
    else if rarity == UNCOMMON then 30
    else if rarity == RARE then 20
    else if rarity == EPIC then 10
    else 25
  }

  /** Rarer means fewer copies, and a rarity from `getRarity` never falls
      back to 25. */
  lemma SupplyByRarity(index: int, total: int)
    ensures GetMaxSupply(COMMON) > GetMaxSupply(UNCOMMON) > GetMaxSupply(RARE) > GetMaxSupply(EPIC)
    ensures GetMaxSupply(GetRarity(index, total)) != 25
  {
  }

  /** The copies a list of rarities allows in total. */
  function TotalSupply(rs: seq<string>): (n: nat)
    ensures rs != [] ==> n >= 10
  {
    if rs == [] then 0 else GetMaxSupply(rs[0]) + TotalSupply(rs[1..])
  }

  lemma {:induction false} TotalSupplyAppend(a: seq<string>, b: seq<string>)
    ensures TotalSupply(a + b) == TotalSupply(a) + TotalSupply(b)
  {
    if a == [] {
      assert a + b == b;
    } else {
      assert (a + b)[0] == a[0] && (a + b)[1..] == a[1..] + b;
      TotalSupplyAppend(a[1..], b);
    }
  }

  lemma {:induction false} TotalSupplyRepeat(n: nat, x: string)
    ensures TotalSupply(Repeat(n, x)) == n * GetMaxSupply(x)
  {
    if n > 0 {
      assert Repeat(n, x)[1..] == Repeat(n - 1, x);
      TotalSupplyRepeat(n - 1, x);
    }
  }

  /** The copies a whole collection allows: 50 for one image, 60 for two,
      and 80 plus 30 per middle Uncommon image from three on. */
  lemma CollectionSupply(total: nat)
    requires total >= 1
    ensures TotalSupply(Rarities(total)) ==
      if total == 1 then 50 else if total == 2 then 60 else 80 + 30 * (total - 3)
  {
    RarityLayout(total);
    assert TotalSupply([EPIC]) == 10;
    if total == 1 {
      assert TotalSupply([COMMON]) == 50;
    } else if total == 2 {
      assert [COMMON, EPIC][1..] == [EPIC];
    } else {
      var u := Repeat(total - 3, UNCOMMON);
      assert [COMMON, RARE][1..] == [RARE];
      assert TotalSupply([RARE]) == 20;
      TotalSupplyAppend([COMMON, RARE] + u, [EPIC]);
      TotalSupplyAppend([COMMON, RARE], u);
      TotalSupplyRepeat(total - 3, UNCOMMON);
    }
  }

  // ---------------------------------------------------------------------
  // Files
  // ---------------------------------------------------------------------

  /** `file.toLowerCase().match(/\.(png|jpg|jpeg|gif|svg)$/)` */
  predicate IsImageFile(file: string) {
    var l := Lower(file);
    EndsWith(l, ".png") || EndsWith(l, ".jpg") || EndsWith(l, ".jpeg")
    || EndsWith(l, ".gif") || EndsWith(l, ".svg")
  }

  /** The directory listing filtered to images, in listing order. */
  function ImageFiles(files: seq<string>): (r: seq<string>)
    ensures |r| <= |files|
    ensures forall i :: 0 <= i < |r| ==> IsImageFile(r[i]) && r[i] in files
    ensures forall f :: f in files && IsImageFile(f) ==> f in r
  {
    if files == [] then []
    else (if IsImageFile(files[0]) then [files[0]] else []) + ImageFiles(files[1..])
  }

  /** The `mimeMap` lookup on a lower-case extension. */
  function MimeOfExtension(ext: string): (mime: string) {
    if ext == ".png" then "image/png"
    else if ext == ".jpg" || ext == ".jpeg" then "image/jpeg"
    else if ext == ".gif" then "image/gif"
    else if ext == ".svg" then "image/svg+xml"
    else "image/png"
  }

  /** `getMimeType(filename)`: the lower-cased extension picks the type;
      an unknown or missing extension gives "image/png". */
  function GetMimeType(filename: string): (mime: string)
    requires '/' !in filename
    ensures mime == "image/png" || mime == "image/jpeg" || mime == "image/gif" || mime == "image/svg+xml"
  {
    MimeOfExtension(Lower(Extname(filename)))
  }

  /** Lower-casing keeps every '.' and '/' where it is and adds none. */
  lemma LowerKeepsSeparators(s: string)
    ensures |Lower(s)| == |s|
    ensures forall k :: 0 <= k < |s| ==> (Lower(s)[k] == '.' <==> s[k] == '.')
    ensures forall k :: 0 <= k < |s| ==> (Lower(s)[k] == '/' <==> s[k] == '/')
  {
  }

  /** The type depends on the extension alone, whatever its case. */
  lemma MimeTypeOfExtension(stem: string, ext: string)
    requires stem != [] && '.' !in stem && '/' !in stem
    requires ext != [] && ext[0] == '.' && '.' !in ext[1..] && '/' !in ext
    ensures '/' !in stem + ext && '/' !in stem + Lower(ext)
    ensures GetMimeType(stem + ext) == MimeOfExtension(Lower(ext))
    ensures GetMimeType(stem + ext) == GetMimeType(stem + Lower(ext))
  {
    ExtnameOfSplit(stem, ext);
    var l := Lower(ext);
    LowerExtension(ext);
    ExtnameOfSplit(stem, l);
    LowerOfLowerCase(l);
  }

  /** A lower-cased extension is still an extension. */
  lemma LowerExtension(ext: string)
    requires ext != [] && ext[0] == '.' && '.' !in ext[1..] && '/' !in ext
    ensures var l := Lower(ext);
      l != [] && l[0] == '.' && '.' !in l[1..] && '/' !in l && IsLowerCase(l)
  {
    var l := Lower(ext);
    LowerKeepsSeparators(ext);
    forall k | 0 <= k < |l[1..]|
      ensures l[1..][k] != '.'
    {
      assert l[1..][k] == l[k + 1] && ext[1..][k] == ext[k + 1];
    }
    forall k | 0 <= k < |l|
      ensures l[k] != '/'
    {
      assert ext[k] != '/';
    }
  }

  /** An image file named stem and extension gets the type of the
      extension the filter matched, never the fallback for a JPEG, GIF or
      SVG. */
  lemma ImageFileMimeType(stem: string, ext: string)
    requires stem != [] && '.' !in stem && '/' !in stem
    requires ext != [] && ext[0] == '.' && '.' !in ext[1..] && '/' !in ext
    requires IsImageFile(stem + ext)
    ensures Lower(ext) in {".png", ".jpg", ".jpeg", ".gif", ".svg"}
    ensures GetMimeType(stem + ext) == MimeOfExtension(Lower(ext))
  {
    MimeTypeOfExtension(stem, ext);
    var l := Lower(stem + ext);
    LowerAppend(stem, ext);
    LowerKeepsSeparators(stem + ext);
    if EndsWith(l, ".png") {
      MatchedSuffix(stem, ext, ".png");
    } else if EndsWith(l, ".jpg") {
      MatchedSuffix(stem, ext, ".jpg");
    } else if EndsWith(l, ".jpeg") {
      MatchedSuffix(stem, ext, ".jpeg");
    } else if EndsWith(l, ".gif") {
      MatchedSuffix(stem, ext, ".gif");
    } else {
      MatchedSuffix(stem, ext, ".svg");
    }
  }

  /** A suffix starting with the only '.' of the name is the whole
      extension. */
  lemma MatchedSuffix(stem: string, ext: string, suffix: string)
    requires '.' !in stem
    requires ext != [] && ext[0] == '.' && '.' !in ext[1..]
    requires suffix != [] && suffix[0] == '.'
    requires EndsWith(Lower(stem + ext), suffix)
    ensures Lower(ext) == suffix
  {
    var file := stem + ext;
    var l := Lower(file);
    LowerAppend(stem, ext);
    LowerKeepsSeparators(file);
    var d := |l| - |suffix|;
    assert l[d] == suffix[0] == '.';
    assert file[d] == '.';
    assert d == |stem|;
    assert l[|stem|..] == Lower(ext);
  }

  // ---------------------------------------------------------------------
  // Names, descriptions and traits
  // ---------------------------------------------------------------------

  /** The `nameMap` entries. */
  function KnownDisplayName(name: string): Option<string> {
    if name == "1" then Some("Classic Blue NFT")
    else if name == "cnm" then Some("Cosmic Night Mare")
    else if name == "pppsw" then Some("Purple Power Swing")
    else if name == "zdt" then Some("Zen Digital Token")
    else None
  }

  /** `s.charAt(0).toUpperCase() + s.slice(1)` */
  function Capitalize(s: string): (r: string)
    ensures |r| == |s|
    ensures s != [] ==> r[0] == UpperChar(s[0]) && r[1..] == s[1..]
  {
    if s == [] then [] else [UpperChar(s[0])] + s[1..]
  }

  /** `getDisplayName(name)` for the file name without its extension. */
  function GetDisplayName(name: string): (display: string)
    ensures KnownDisplayName(name).Some? ==> display == KnownDisplayName(name).value
    ensures KnownDisplayName(name).None? ==> StartsWith(display, "NFT ") && display[4..] == Capitalize(name)
  {
    match KnownDisplayName(name)
    case Some(d) => d
    case None => "NFT " + Capitalize(name)
  }

  /** A name outside the table shows as "NFT " and the name with its
      first letter in upper case, so lower-casing gives the name back. */
  lemma DisplayNameFallback(name: string)
    requires KnownDisplayName(name).None?
    ensures var d := GetDisplayName(name);
      StartsWith(d, "NFT ") && |d| == |name| + 4 && Lower(d[4..]) == Lower(name)
  {
    var d := GetDisplayName(name);
    assert d[4..] == Capitalize(name);
  }

  /** Two names share a display name only when they are the same name or
      differ just in the case of the first letter. */
  lemma DisplayNameInjective(a: string, b: string)
    requires GetDisplayName(a) == GetDisplayName(b)
    ensures a == b || (a != [] && |a| == |b| && UpperChar(a[0]) == UpperChar(b[0]) && a[1..] == b[1..])
  {
    var d := GetDisplayName(a);
    KnownNamesDiffer(a);
    KnownNamesDiffer(b);
    if KnownDisplayName(a).None? && KnownDisplayName(b).None? {
      assert Capitalize(a) == d[4..] == Capitalize(b);
      if a != [] && b != [] {
        assert Capitalize(a)[1..] == Capitalize(b)[1..];
      }
    }
  }

  /** Names from the table do not start with 'N'; the others do. */
  lemma KnownNamesDiffer(name: string)
    ensures GetDisplayName(name) != []
    ensures GetDisplayName(name)[0] == 'N' <==> KnownDisplayName(name).None?
  {
  }

  const DESCRIPTION_PREFIX: string := "A unique digital collectible featuring "

  const DESCRIPTION_SUFFIX: string := " design."

  /** The `descMap` entries. */
  function KnownDescription(name: string): Option<string> {
    if name == "1" then Some("A classic blue-themed NFT representing the origin of our collection.")
    else if name == "cnm" then Some("A mysterious cosmic creature wandering through digital nightmares.")
    else if name == "pppsw" then Some("An energetic purple wave bringing power and motion to the blockchain.")
    else if name == "zdt" then Some("A serene digital token embodying zen philosophy and minimalism.")
    else None
  }

  /** `getDescription(name)` */
  function GetDescription(name: string): (description: string)
    ensures KnownDescription(name).Some? ==> description == KnownDescription(name).value
    ensures KnownDescription(name).None? ==>
      |description| == |DESCRIPTION_PREFIX| + |name| + |DESCRIPTION_SUFFIX|
      && description[|DESCRIPTION_PREFIX|..|DESCRIPTION_PREFIX| + |name|] == name
  {
    match KnownDescription(name)
    case Some(d) => d
    case None => DESCRIPTION_PREFIX + name + DESCRIPTION_SUFFIX
  }

  /** The table and the fallback cover the same names as the display
      names, and the fallback description quotes the name between a fixed
      opening and " design.". */
  lemma DescriptionFallback(name: string)
    ensures KnownDescription(name).None? <==> KnownDisplayName(name).None?
    ensures KnownDescription(name).None? ==>
      var d := GetDescription(name);
      StartsWith(d, DESCRIPTION_PREFIX) && EndsWith(d, DESCRIPTION_SUFFIX)
      && d[|DESCRIPTION_PREFIX|..|d| - |DESCRIPTION_SUFFIX|] == name
  {
    if KnownDescription(name).None? {
      var d := GetDescription(name);
      assert d[..|DESCRIPTION_PREFIX|] == DESCRIPTION_PREFIX;
      assert d[|d| - |DESCRIPTION_SUFFIX|..] == DESCRIPTION_SUFFIX;
      assert d[|DESCRIPTION_PREFIX|..|d| - |DESCRIPTION_SUFFIX|] == name;
    }
  }

  datatype Trait = Trait(traitType: string, value: string)

  function Traits(color: string, style: string, rarity: string): seq<Trait> {
    [Trait("Color Theme", color), Trait("Style", style), Trait("Rarity", rarity)]
  }

  /** `getAttributes(name, index)`; the index is not used. */
  function GetAttributes(name: string, index: int): (traits: seq<Trait>)
    ensures |traits| == 3
    ensures traits[0].traitType == "Color Theme" && traits[1].traitType == "Style"
      && traits[2].traitType == "Rarity"
  {
    if name == "1" then Traits("Blue", "Classic", COMMON)
    else if name == "cnm" then Traits("Dark", "Cosmic", RARE)
    else if name == "pppsw" then Traits("Purple", "Dynamic", UNCOMMON)
    else if name == "zdt" then Traits("Minimal", "Zen", EPIC)
    else Traits("Unknown", "Custom", COMMON)
  }

  /** The traits of a name are the same at every index, and a name outside
      the table gets Unknown, Custom and Common. */
  lemma AttributesIgnoreIndex(name: string, i: int, j: int)
    ensures GetAttributes(name, i) == GetAttributes(name, j)
    ensures KnownDisplayName(name).None? ==>
      GetAttributes(name, i) == [Trait("Color Theme", "Unknown"), Trait("Style", "Custom"), Trait("Rarity", COMMON)]
  {
  }

  /** For the four named images in name order, the rarity trait of each
      agrees with the rarity its position gives it. */
  lemma KnownCollectionConsistent()
    ensures var names := ["1", "cnm", "pppsw", "zdt"];
      forall i :: 0 <= i < 4 ==> GetAttributes(names[i], i)[2].value == GetRarity(i, 4)
  {
  }

  // ---------------------------------------------------------------------
  // The metadata object written for one image
  // ---------------------------------------------------------------------

  /** The `image` field: a link or path, or the image file itself handed
      to the uploader with its type. */
  datatype Image = Link(url: string) | Upload(file: string, mimeType: string)

  /** One metadata object; `maxSupply` is written by one script only. */
  datatype Metadata = Metadata(
    name: string,
    description: string,
    image: Image,
    attributes: seq<Trait>,
    templateId: nat,
    originalFilename: string,
    rarity: string,
    maxSupply: Option<nat>)

  /** `${i}.json` */
  function MetadataFileName(i: nat): string {
    NatToDecimal(i) + ".json"
  }

  /** A metadata file as handed to the uploader. */
  datatype MetadataFile = MetadataFile(name: string, metadata: Metadata)

  /** The metadata for image `i` of `files`, named after the image without
      its extension. */
  function ImageMetadata(files: seq<string>, i: nat, image: Image, withSupply: bool): (m: Metadata)
    requires i < |files| && '/' !in files[i]
    ensures m.templateId == i && m.originalFilename == files[i]
    ensures m.rarity == GetRarity(i, |files|)
    ensures m.maxSupply == if withSupply then Some(GetMaxSupply(m.rarity)) else None
  {
    var name := BaseName(files[i]);
    var rarity := GetRarity(i, |files|);
    Metadata(
      GetDisplayName(name),
      GetDescription(name),
      image,
      GetAttributes(name, i),
      i,
      files[i],
      rarity,
      if withSupply then Some(GetMaxSupply(rarity)) else None)
  }

  /** Distinct positions give distinct metadata file names, and the
      position can be read back from the name. */
  lemma MetadataFileNames(i: nat, j: nat)
    ensures ParseInt(MetadataFileName(i)) == Some(i)
    ensures MetadataFileName(i) == MetadataFileName(j) ==> i == j
  {
    assert MetadataFileName(i) == IntToDecimal(i) + ".json";
    ParseIntOfDecimal(i, ".json");
    if MetadataFileName(i) == MetadataFileName(j) {
      assert MetadataFileName(j) == IntToDecimal(j) + ".json";
      ParseIntOfDecimal(j, ".json");
    }
  }

  // ---------------------------------------------------------------------
  // The template list
  // ---------------------------------------------------------------------

  /** Pushing the next element of `s` extends the prefix built so far. */
  lemma PrefixStep<T>(s: seq<T>, i: nat)
    requires i < |s|
    ensures s[..i + 1] == s[..i] + [s[i]]
  {
  }

  /** Each file name is a bare name, as a directory listing gives it. */
  predicate BareNames(files: seq<string>) {
    forall k :: 0 <= k < |files| ==> '/' !in files[k]
  }

  /** `ipfs://${cid}/` */
  function BaseURI(cid: string): string {
    "ipfs://" + cid + "/"
  }

  /** `https://nftstorage.link/ipfs/${cid}/` */
  function GatewayURL(cid: string): string {
    "https://nftstorage.link/ipfs/" + cid + "/"
  }

  /** `ipfs://${cid}/${id}.json` */
  function MetadataURI(cid: string, id: nat): string {
    BaseURI(cid) + MetadataFileName(id)
  }

  /** The URI of a template lies in the metadata folder and names the
      template's own file, so distinct templates have distinct URIs. */
  lemma MetadataURIParts(cid: string, id: nat, other: nat)
    ensures StartsWith(MetadataURI(cid, id), BaseURI(cid))
    ensures MetadataURI(cid, id)[|BaseURI(cid)|..] == MetadataFileName(id)
    ensures MetadataURI(cid, id) == MetadataURI(cid, other) ==> id == other
  {
    var base := BaseURI(cid);
    assert MetadataURI(cid, id)[..|base|] == base;
    assert MetadataURI(cid, id)[|base|..] == MetadataFileName(id);
    assert MetadataURI(cid, other)[|base|..] == MetadataFileName(other);
    MetadataFileNames(id, other);
  }

  /** One entry of the template list written to `.selectable-nft-templates`. */
  datatype Template = Template(
    templateId: nat,
    metadataURI: string,
    name: string,
    filename: string,
    rarity: string,
    maxSupply: nat)
}
