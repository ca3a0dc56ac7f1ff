/** The fallback upload script: one metadata file per image, linking the
    uploaded image (or a relative path when the image upload failed), and
    the template list pointing at the uploaded metadata folder. The
    uploads are parameters: `imagesCid` is the image folder's content id,
    the empty string when that upload failed, and `uploadedCid` the
    metadata folder's, `None` when that upload failed. */
module UploadBackup {
  import opened Wrappers
  import opened JsStrings
  import opened UploadRules
  import LocalMetadata
  import JsValues

  // ---------------------------------------------------------------------
  // The image uploads
  // ---------------------------------------------------------------------

  /** An image handed to the uploader, with its type. */
  datatype UploadFile = UploadFile(name: string, mimeType: string)

  /** What the first loop of `main` collects: every image, in order. */
  function ImageUploads(imageFiles: seq<string>): (uploads: seq<UploadFile>)
    requires BareNames(imageFiles)
    ensures |uploads| == |imageFiles|
  {
    seq(|imageFiles|, i requires 0 <= i < |imageFiles| =>
      UploadFile(imageFiles[i], GetMimeType(imageFiles[i])))
  }

  /** The first loop of `main`; reading the image bytes is not modelled. */
  method CollectImageUploads(imageFiles: seq<string>) returns (uploads: seq<UploadFile>)
    requires BareNames(imageFiles)
    ensures uploads == ImageUploads(imageFiles)
  {
    uploads := [];
    var i := 0;
    while i < |imageFiles|
      invariant 0 <= i <= |imageFiles|
      invariant uploads == ImageUploads(imageFiles)[..i]
    {
      var filename := imageFiles[i];
      PrefixStep(ImageUploads(imageFiles), i);
      uploads := uploads + [UploadFile(filename, GetMimeType(filename))];
      i := i + 1;
    }
  }

  // ---------------------------------------------------------------------
  // The metadata files
  // ---------------------------------------------------------------------

  /** The `image` field: the file inside the uploaded image folder, or the
      relative path under `assets` when there is no folder id. */
  function ImageOf(imagesCid: string, filename: string): (image: Image)
    ensures image.Link?
    ensures imagesCid != [] ==> image.url == "ipfs://" + imagesCid + "/" + filename
    ensures imagesCid == [] ==> image.url == "./assets/" + filename
  {
    if imagesCid != [] then Link("ipfs://" + imagesCid + "/" + filename)
    else Link("./assets/" + filename)
  }

  /** Metadata file `i` of the collection. */
  function MetadataFileAt(imageFiles: seq<string>, imagesCid: string, i: nat): MetadataFile
    requires i < |imageFiles| && BareNames(imageFiles)
  {
    MetadataFile(MetadataFileName(i), ImageMetadata(imageFiles, i, ImageOf(imagesCid, imageFiles[i]), true))
  }

  /** What the second loop of `main` collects: file `i` is named "i.json"
      and describes image `i`, with its supply. */
  function MetadataFiles(imageFiles: seq<string>, imagesCid: string): (files: seq<MetadataFile>)
    requires BareNames(imageFiles)
    ensures |files| == |imageFiles|
  {
    seq(|imageFiles|, i requires 0 <= i < |imageFiles| => MetadataFileAt(imageFiles, imagesCid, i))
  }

  /** The second loop of `main`; serialising and writing each file is not
      modelled. */
  method GenerateMetadataFiles(imageFiles: seq<string>, imagesCid: string) returns (files: seq<MetadataFile>)
    requires BareNames(imageFiles)
    ensures files == MetadataFiles(imageFiles, imagesCid)
  {
    files := [];
    var i := 0;
    while i < |imageFiles|
      invariant 0 <= i <= |imageFiles|
      invariant files == MetadataFiles(imageFiles, imagesCid)[..i]
    {
      var filename := imageFiles[i];
      var metadata := ImageMetadata(imageFiles, i, ImageOf(imagesCid, filename), true);
      PrefixStep(MetadataFiles(imageFiles, imagesCid), i);
      files := files + [MetadataFile(MetadataFileName(i), metadata)];
      i := i + 1;
    }
    assert files == MetadataFiles(imageFiles, imagesCid)[..|imageFiles|];
  }

  // ---------------------------------------------------------------------
  // The template list
  // ---------------------------------------------------------------------

  /** The folder id used when the metadata upload fails. */
  const PLACEHOLDER_CID: string := "bafybeiemxf5abjwjbikoz4mc3a3dla6ual3jsgpdr4cjr3oz3evfyavhwq"

  /** The metadata folder id: the uploaded one, or the placeholder. */
  function MetadataCid(uploadedCid: Option<string>): string {
    uploadedCid.GetOr(PLACEHOLDER_CID)
  }

  /** The `templates` array of `main`. */
  function Templates(imageFiles: seq<string>, cid: string): (ts: seq<Template>)
    requires BareNames(imageFiles)
    ensures |ts| == |imageFiles|
    ensures forall i :: 0 <= i < |ts| ==>
      ts[i].templateId == i && ts[i].filename == imageFiles[i]
      && ts[i].metadataURI == MetadataURI(cid, i)
      && ts[i].rarity == GetRarity(i, |imageFiles|) && ts[i].maxSupply == GetMaxSupply(ts[i].rarity)
  {
    seq(|imageFiles|, i requires 0 <= i < |imageFiles| =>
      var rarity := GetRarity(i, |imageFiles|);
      Template(i, MetadataURI(cid, i), GetDisplayName(BaseName(imageFiles[i])), imageFiles[i],
        rarity, GetMaxSupply(rarity)))
  }

  /** The object written to `.selectable-nft-templates`. */
  datatype Config = Config(
    folderCid: string,
    baseURI: string,
    gatewayURL: string,
    uploadMethod: string,
    templates: seq<Template>)

  function BackupConfig(imageFiles: seq<string>, imagesCid: string, uploadedCid: Option<string>): (c: Config)
    requires BareNames(imageFiles)
    ensures c.folderCid == if uploadedCid.Some? then uploadedCid.value else PLACEHOLDER_CID
    ensures c.baseURI == "ipfs://" + c.folderCid + "/"
    ensures c.gatewayURL == "https://nftstorage.link/ipfs/" + c.folderCid + "/"
    ensures c.uploadMethod == if imagesCid != [] then "public-ipfs" else "local-fallback"
    ensures c.templates == Templates(imageFiles, c.folderCid) && |c.templates| == |imageFiles|
  {
    var cid := MetadataCid(uploadedCid);
    Config(cid, BaseURI(cid), GatewayURL(cid),
      if imagesCid != [] then "public-ipfs" else "local-fallback",
      Templates(imageFiles, cid))
  }

  /** Template `i` describes what metadata file `i` describes: same name,
      image file, rarity and supply, and its URI is the folder's base
      followed by that file's name. */
  lemma TemplateMatchesMetadata(imageFiles: seq<string>, imagesCid: string, uploadedCid: Option<string>, i: nat)
    requires BareNames(imageFiles) && i < |imageFiles|
    ensures var c := BackupConfig(imageFiles, imagesCid, uploadedCid);
      var t := c.templates[i];
      var f := MetadataFiles(imageFiles, imagesCid)[i];
      t.templateId == i == f.metadata.templateId
      && t.name == f.metadata.name
      && t.filename == f.metadata.originalFilename
      && t.rarity == f.metadata.rarity
      && Some(t.maxSupply) == f.metadata.maxSupply
      && StartsWith(t.metadataURI, c.baseURI)
      && t.metadataURI[|c.baseURI|..] == f.name
  {
    MetadataURIParts(MetadataCid(uploadedCid), i, i);
  }

  /** The templates carry the rarities of the collection in file order,
      so with two images or more exactly one is Common and one Epic, and
      their supplies add up to the collection's total. */
  lemma TemplateRarities(imageFiles: seq<string>, cid: string)
    requires BareNames(imageFiles)
    ensures var ts := Templates(imageFiles, cid);
      RaritiesOf(ts) == Rarities(|imageFiles|)
      && SupplyOf(ts) == TotalSupply(Rarities(|imageFiles|))
  {
    var ts := Templates(imageFiles, cid);
    assert RaritiesOf(ts) == Rarities(|imageFiles|);
    SupplyOfRarities(ts);
  }

  /** The rarity column of a template list. */
  function RaritiesOf(ts: seq<Template>): (rs: seq<string>)
    ensures |rs| == |ts| && forall i :: 0 <= i < |ts| ==> rs[i] == ts[i].rarity
  {
    seq(|ts|, i requires 0 <= i < |ts| => ts[i].rarity)
  }

  /** The copies a template list allows in total. */
  function SupplyOf(ts: seq<Template>): nat {
    if ts == [] then 0 else ts[0].maxSupply + SupplyOf(ts[1..])
  }

  lemma {:induction false} SupplyOfRarities(ts: seq<Template>)
    requires forall i :: 0 <= i < |ts| ==> ts[i].maxSupply == GetMaxSupply(ts[i].rarity)
    ensures SupplyOf(ts) == TotalSupply(RaritiesOf(ts))
  {
    if ts != [] {
      assert RaritiesOf(ts)[1..] == RaritiesOf(ts[1..]);
      SupplyOfRarities(ts[1..]);
    }
  }

  /** Distinct templates point at distinct metadata files. */
  lemma TemplateURIsDistinct(imageFiles: seq<string>, cid: string, i: nat, j: nat)
    requires BareNames(imageFiles) && i < j < |imageFiles|
    ensures Templates(imageFiles, cid)[i].metadataURI != Templates(imageFiles, cid)[j].metadataURI
  {
    MetadataURIParts(cid, i, j);
  }

  // ---------------------------------------------------------------------
  // Publishing the written files locally
  // ---------------------------------------------------------------------

  /** A metadata file as the local publishing script reads it back. */
  function AsPublished(m: Metadata): LocalMetadata.Metadata
    requires m.image.Link?
  {
    LocalMetadata.Metadata(
      JsValues.Str(m.name),
      JsValues.Str(m.image.url),
      Some(LocalMetadata.Properties(
        JsValues.Str(m.originalFilename),
        JsValues.Str(m.rarity),
        if m.maxSupply.Some? then JsValues.Num(m.maxSupply.value) else JsValues.Undefined)))
  }

  /** Once published for the dev server, a file written by this script
      shows its image under "/assets/", whether the image was uploaded or
      not, and its name gives back its template id. */
  lemma PublishedImage(imageFiles: seq<string>, imagesCid: string, i: nat)
    requires BareNames(imageFiles) && i < |imageFiles| && imageFiles[i] != []
    ensures var f := MetadataFiles(imageFiles, imagesCid)[i];
      LocalMetadata.RewriteImage(AsPublished(f.metadata)).image == JsValues.Str("/assets/" + imageFiles[i])
      && '/' !in f.name && LocalMetadata.FileId(f.name) == Some(i)
  {
    LocalMetadata.FileIdOfCanonicalName(i);
  }
}
