/** The two nft.storage upload scripts for selectable templates. Both
    write metadata file `i` for image `i` with the image file itself
    attached; the first also records what it needs for the template list,
    and the second falls back to four placeholder files when there are no
    images. The folder id returned by the upload is the parameter
    `folderCid`. */
module SelectableUpload {
  import opened Wrappers
  import opened JsStrings
  import opened UploadRules
  import UploadBackup

  // ---------------------------------------------------------------------
  // Metadata for images (both scripts)
  // ---------------------------------------------------------------------

  /** Metadata file `i`: the image is attached with its type, and no
      supply is written. */
  function SelectableFileAt(imageFiles: seq<string>, i: nat): MetadataFile
    requires i < |imageFiles| && BareNames(imageFiles)
  {
    var filename := imageFiles[i];
    MetadataFile(MetadataFileName(i), ImageMetadata(imageFiles, i, Upload(filename, GetMimeType(filename)), false))
  }

  function SelectableFiles(imageFiles: seq<string>): (files: seq<MetadataFile>)
    requires BareNames(imageFiles)
    ensures |files| == |imageFiles|
    ensures forall i :: 0 <= i < |files| ==>
      files[i].name == MetadataFileName(i) && files[i].metadata.templateId == i
      && files[i].metadata.maxSupply.None? && files[i].metadata.image.Upload?
  {
    seq(|imageFiles|, i requires 0 <= i < |imageFiles| => SelectableFileAt(imageFiles, i))
  }

  /** File `i` is named "i.json" and describes image `i` with the rarity
      of position `i` and no supply. */
  lemma SelectableFilesShape(imageFiles: seq<string>, i: nat, j: nat)
    requires BareNames(imageFiles) && i < |imageFiles| && j < |imageFiles|
    ensures var f := SelectableFiles(imageFiles)[i];
      ParseInt(f.name) == Some(i)
      && f.metadata.templateId == i && f.metadata.originalFilename == imageFiles[i]
      && f.metadata.rarity == GetRarity(i, |imageFiles|) && f.metadata.maxSupply.None?
      && f.metadata.image == Upload(imageFiles[i], GetMimeType(imageFiles[i]))
    ensures i != j ==> SelectableFiles(imageFiles)[i].name != SelectableFiles(imageFiles)[j].name
  {
    MetadataFileNames(i, j);
  }

  // ---------------------------------------------------------------------
  // upload-selectable-nfts: the loop and the template data
  // ---------------------------------------------------------------------

  /** What the loop records per image for the template list. */
  datatype TemplateInfo = TemplateInfo(
    templateId: nat,
    filename: string,
    name: string,
    description: string,
    rarity: string)

  function InfoOf(file: MetadataFile): TemplateInfo {
    var m := file.metadata;
    TemplateInfo(m.templateId, m.originalFilename, m.name, m.description, m.rarity)
  }

  function TemplateInfos(imageFiles: seq<string>): (infos: seq<TemplateInfo>)
    requires BareNames(imageFiles)
    ensures |infos| == |imageFiles|
  {
    seq(|imageFiles|, i requires 0 <= i < |imageFiles| => InfoOf(SelectableFileAt(imageFiles, i)))
  }

  /** The loop of `main` in upload-selectable-nfts: one metadata file and
      one template record per image; reading and uploading are not
      modelled. */
  method CollectMetadata(imageFiles: seq<string>) returns (files: seq<MetadataFile>, infos: seq<TemplateInfo>)
    requires BareNames(imageFiles)
    ensures files == SelectableFiles(imageFiles)
    ensures infos == TemplateInfos(imageFiles)
  {
    files := [];
    infos := [];
    var i := 0;
    while i < |imageFiles|
      invariant 0 <= i <= |imageFiles|
      invariant files == SelectableFiles(imageFiles)[..i]
      invariant infos == TemplateInfos(imageFiles)[..i]
    {
      var file := SelectableFileAt(imageFiles, i);
      var metadata := file.metadata;
      PrefixStep(SelectableFiles(imageFiles), i);
      PrefixStep(TemplateInfos(imageFiles), i);
      files := files + [file];
      infos := infos + [TemplateInfo(i, imageFiles[i], metadata.name, metadata.description, metadata.rarity)];
      i := i + 1;
    }
  }

  /** The object written to `.selectable-nft-templates`. */
  datatype TemplateData = TemplateData(
    folderCid: string,
    baseURI: string,
    gatewayURL: string,
    templates: seq<Template>)

  function TemplateOf(cid: string, info: TemplateInfo): Template {
    Template(info.templateId, MetadataURI(cid, info.templateId), info.name, info.filename,
      info.rarity, GetMaxSupply(info.rarity))
  }

  /** The template data of upload-selectable-nfts; `None` stands for the
      error thrown when the directory holds no image. */
  function SelectableTemplateData(imageFiles: seq<string>, folderCid: string): (r: Option<TemplateData>)
    requires BareNames(imageFiles)
    ensures r.None? <==> imageFiles == []
  {
    if imageFiles == [] then None
    else
      var infos := TemplateInfos(imageFiles);
      Some(TemplateData(folderCid, BaseURI(folderCid), GatewayURL(folderCid),
        seq(|infos|, i requires 0 <= i < |infos| => TemplateOf(folderCid, infos[i]))))
  }

  /** Given the same images and folder, this script and the fallback
      script write the same template list. */
  lemma SameTemplatesAsBackup(imageFiles: seq<string>, folderCid: string, imagesCid: string)
    requires BareNames(imageFiles) && imageFiles != []
    ensures var data := SelectableTemplateData(imageFiles, folderCid).value;
      var backup := UploadBackup.BackupConfig(imageFiles, imagesCid, Some(folderCid));
      data.templates == backup.templates
      && data.folderCid == backup.folderCid && data.baseURI == backup.baseURI
      && data.gatewayURL == backup.gatewayURL
  {
    var data := SelectableTemplateData(imageFiles, folderCid).value;
    var backup := UploadBackup.BackupConfig(imageFiles, imagesCid, Some(folderCid));
    assert forall i :: 0 <= i < |imageFiles| ==> data.templates[i] == backup.templates[i];
  }

  // ---------------------------------------------------------------------
  // upload-selectable-fixed
  // ---------------------------------------------------------------------

  const PLACEHOLDER_IMAGE: string := "https://images.unsplash.com/photo-1578662996442-48f60103fc96?w=400"

  /** A placeholder metadata file: no properties, three traits. */
  datatype Placeholder = Placeholder(
    fileName: string,
    name: string,
    description: string,
    image: string,
    attributes: seq<Trait>)

  /** The rarity written on placeholder `i`: Common first, Epic at 3, Rare
      in between. */
  function PlaceholderRarity(i: nat): string {
    if i == 0 then COMMON else if i == 3 then EPIC else RARE
  }

  function PlaceholderAt(i: nat): Placeholder {
    var id := NatToDecimal(i);
    Placeholder(
      MetadataFileName(i),
      "Selectable NFT #" + id,
      "A selectable NFT template - ID " + id,
      PLACEHOLDER_IMAGE,
      [Trait("Template ID", id), Trait("Type", "Selectable"), Trait("Rarity", PlaceholderRarity(i))])
  }

  function Placeholders(): (ps: seq<Placeholder>)
    ensures |ps| == 4
  {
    seq(4, i requires 0 <= i < 4 => PlaceholderAt(i))
  }

  /** The placeholder loop of `main`. */
  method MakePlaceholders() returns (ps: seq<Placeholder>)
    ensures ps == Placeholders()
  {
    ps := [];
    var i := 0;
    while i < 4
      invariant 0 <= i <= 4
      invariant ps == Placeholders()[..i]
    {
      var id := NatToDecimal(i);
      var rarity := if i == 0 then COMMON else if i == 3 then EPIC else RARE;
      var metadata := Placeholder(
        NatToDecimal(i) + ".json",
        "Selectable NFT #" + id,
        "A selectable NFT template - ID " + id,
        PLACEHOLDER_IMAGE,
        [Trait("Template ID", id), Trait("Type", "Selectable"), Trait("Rarity", rarity)]);
      ps := ps + [metadata];
      i := i + 1;
    }
  }

  /** The four placeholders are "0.json" to "3.json", each naming its own
      id in its title. */
  lemma PlaceholderNames(i: nat, j: nat)
    requires i < 4 && j < 4
    ensures ParseInt(Placeholders()[i].fileName) == Some(i)
    ensures i != j ==> Placeholders()[i].fileName != Placeholders()[j].fileName
    ensures Placeholders()[i].attributes[0].value == NatToDecimal(i)
  {
    MetadataFileNames(i, j);
  }

  /** The placeholder rule agrees with `getRarity` on a collection of four
      except at position 2, which it makes Rare where `getRarity` makes it
      Uncommon: the placeholders hold two Rare files and no Uncommon one. */
  lemma PlaceholderRarityDiffers()
    ensures forall i :: 0 <= i < 4 && i != 2 ==> PlaceholderRarity(i) == GetRarity(i, 4)
    ensures PlaceholderRarity(2) == RARE && GetRarity(2, 4) == UNCOMMON
    ensures multiset(seq(4, i requires 0 <= i < 4 => Placeholders()[i].attributes[2].value))[RARE] == 2
  {
    var rs := seq(4, i requires 0 <= i < 4 => Placeholders()[i].attributes[2].value);
    assert rs == [COMMON, RARE, RARE, EPIC];
  }

  /** What upload-selectable-fixed uploads: the placeholders when there is
      no image, the image metadata otherwise. */
  datatype FixedUpload = PlaceholderFolder(placeholders: seq<Placeholder>) | ImageFolder(files: seq<MetadataFile>)

  function FixedUploadOf(imageFiles: seq<string>): (u: FixedUpload)
    requires BareNames(imageFiles)
    ensures u.PlaceholderFolder? <==> imageFiles == []
    ensures u.PlaceholderFolder? ==> |u.placeholders| == 4
    ensures u.ImageFolder? ==> |u.files| == |imageFiles|
  {
    if imageFiles == [] then PlaceholderFolder(Placeholders()) else ImageFolder(SelectableFiles(imageFiles))
  }

  /** `main` of upload-selectable-fixed without its I/O: the uploaded
      folder and the `templates` count it returns. */
  method UploadFixed(imageFiles: seq<string>) returns (upload: FixedUpload, templates: nat)
    requires BareNames(imageFiles)
    ensures upload == FixedUploadOf(imageFiles)
    ensures templates == if imageFiles == [] then 4 else |imageFiles|
  {
    if |imageFiles| == 0 {
      var ps := MakePlaceholders();
      return PlaceholderFolder(ps), 4;
    }
    var files := [];
    var i := 0;
    while i < |imageFiles|
      invariant 0 <= i <= |imageFiles|
      invariant files == SelectableFiles(imageFiles)[..i]
    {
      PrefixStep(SelectableFiles(imageFiles), i);
      files := files + [SelectableFileAt(imageFiles, i)];
      i := i + 1;
    }
    assert files == SelectableFiles(imageFiles)[..|imageFiles|];
    return ImageFolder(files), |imageFiles|;
  }

  /** The count returned is the number of files uploaded, and file `i` of
      the folder is always "i.json". */
  lemma FixedUploadCount(imageFiles: seq<string>, i: nat)
    requires BareNames(imageFiles)
    ensures var u := FixedUploadOf(imageFiles);
      (u.PlaceholderFolder? ==> |u.placeholders| == 4 && (i < 4 ==> u.placeholders[i].fileName == MetadataFileName(i)))
      && (u.ImageFolder? ==> |u.files| == |imageFiles| && (i < |imageFiles| ==> u.files[i].name == MetadataFileName(i)))
  {
  }
}
