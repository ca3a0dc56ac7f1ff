# Minimal NFT Mint DApp — a Dafny model of its core rules

This project models the parts of the Minimal NFT Mint DApp that compute something. The DApp is a React front end with Hardhat scripts for an ERC-721 collection that has an allowlist mint and selectable templates. The models are proved in Dafny 4.11.

- **`Merkle`** (`frontend/src/utils/merkle.js`): the browser's Merkle allowlist utility.
  - Hex normalisation.
  - Sorted-pair Keccak hashing.
  - Level construction, where the last node of an odd level is paired with itself.
  - The root, and the inclusion proof of the first matching leaf.
  - The central theorem: folding the sorted pair hash over that proof, starting from the normalised target, gives back the root. That is what an OpenZeppelin-style `MerkleProof` verifier checks on chain.
  - Keccak-256 is a function parameter, so every result holds for any hash of that shape.
- **`CliArgs`** (`scripts/set-merkle-root.js`):
  - the `--key value` / `--key=value` / `--flag` argument parser, over an explicit argument list;
  - the bytes32 shape check of `--root`;
  - the clean-up of the allowlist addresses.
- **`Session`** (`frontend/src/auth.js`): the 24-hour login session kept under one `localStorage` key.
  - It is modelled as a class whose map field is the storage. The clock is a parameter.
  - Alongside it are the same rules as functions, and lemmas about sequences of calls.
- **`Networks`** (`frontend/src/utils/networks.js`):
  - the table of supported chains;
  - the configured network and the lookup by chain id;
  - block-explorer links.
- **`Ipfs`** (`frontend/src/utils/ipfs.js`): `ipfs://` link rewriting and address shortening.
- **`LocalMetadata`** (`scripts/publish-local-metadata.js`):
  - the image-path rewrite applied when metadata is published for the dev server;
  - the template list rebuilt from the published files, sorted by template id.
- **`UploadRules`**: the helpers the three upload scripts each copy verbatim. It is modelled once:
  - rarity by position and supply by rarity;
  - MIME type by extension;
  - display name, description and traits by file name;
  - the metadata object written for one image.
- **`UploadBackup`** (`scripts/upload-backup.js`):
  - the image and metadata loops;
  - the image link used when the image upload failed;
  - the placeholder folder id used when the metadata upload failed;
  - the template list.
- **`SelectableUpload`** (`scripts/upload-selectable-nfts.js`, `scripts/upload-selectable-fixed.js`):
  - the metadata loop with the image file attached;
  - the template data;
  - the four placeholder files written when there are no images.
- **`JsStrings`, `JsValues`, `Wrappers`**: the JavaScript built-ins the core relies on.
  - String methods (`startsWith`, `toLowerCase`, `trim`, `indexOf`), `String(n)`, `parseInt` and `path.extname` / `path.parse().name`.
  - Truthiness, `||` and `??`.
  - An `Option` type.

In the source, the loops reassign variables and push into arrays step by step. Each such loop is a Dafny `method` with a `while` loop, proved equal to a specification function. The properties are proved about those functions.

## Model

| member | source | states |
|---|---|---|
| Merkle.Keccak256Hex | frontend/src/utils/merkle.js:19 | whatever the hash, `ethers.keccak256` returns "0x" and 64 lower-case hex digits |
| Merkle.ToLowerHex32Shape | frontend/src/utils/merkle.js:5-10 | the empty string is passed through; any other input comes out lower-case and starting with "0x", the prefix being added only when missing |
| Merkle.ToLowerHex32 | frontend/src/utils/merkle.js:5-10 | the result is lower-case; the empty string stays empty; any other input keeps its length, plus two when the "0x" prefix was missing |
| Merkle.ToLowerHex32Idempotent | frontend/src/utils/merkle.js:5-10 | normalising twice is normalising once |
| Merkle.HexTextIff | frontend/src/utils/merkle.js:13-18 | `getBytes(toLowerHex32(h))` accepts `h` exactly when `h` is non-empty, has an optional "0x" and an even number of hex digits |
| Merkle.HashPair | frontend/src/utils/merkle.js:12-20 | the pair hash of two hashable nodes is a digest |
| Merkle.HashPairCommutes | frontend/src/utils/merkle.js:15-17 | with `sortPairs` the order of the two siblings does not change the hash |
| Merkle.HashPairOfNormalised | frontend/src/utils/merkle.js:13-14 | normalising an argument beforehand does not change the hash |
| Merkle.Hasher | frontend/src/utils/merkle.js:32 | `hashPair` with Keccak and `sortPairs` fixed maps any two hashable nodes to a digest |
| Merkle.HasherProperties | frontend/src/utils/merkle.js:12-20 | that pair hash ignores normalisation of its argument, and is symmetric when pairs are sorted |
| Merkle.NormaliseProperties | frontend/src/utils/merkle.js:23 | `leaves.map(toLowerHex32)` keeps hashable leaves hashable and is idempotent |
| Merkle.NextLevel | frontend/src/utils/merkle.js:29-33 | a level of n nodes has a parent level of ceil(n/2) digests |
| Merkle.LevelsFrom | frontend/src/utils/merkle.js:27-36 | the levels start at the given level and end with a level of one node, a digest when there was more than one node |
| Merkle.LevelsFromStep | frontend/src/utils/merkle.js:27-36 | every level below the top has two nodes or more, and the next one is its parent level |
| Merkle.Levels | frontend/src/utils/merkle.js:22-38 | the levels of any leaf list end with a single node |
| Merkle.HashLevel | frontend/src/utils/merkle.js:28-33 | the inner loop builds exactly the parent level |
| Merkle.BuildLevels | frontend/src/utils/merkle.js:22-38 | the loop builds the levels of the specification: `[["0x"]]` for no leaves, otherwise starting from the normalised leaves and ending with one node |
| Merkle.GetMerkleRoot | frontend/src/utils/merkle.js:40-44 | "0x" for no leaves; the normalised leaf for one leaf ("0x" if that leaf is empty); a digest for two or more |
| Merkle.OddLevelDuplication | frontend/src/utils/merkle.js:31 | an odd level has the same parents as that level with its last node written twice |
| Merkle.OddRootDuplication | frontend/src/utils/merkle.js:31 | root([a, b, c]) equals root([a, b, c, c]) for every odd list of three or more leaves |
| Merkle.LevelCount | frontend/src/utils/merkle.js:27-36 | a tree over n nodes has height m with 2^(m-1) < n <= 2^m |
| Merkle.ProofFrom | frontend/src/utils/merkle.js:55-70 | the proof has one entry per level below the top, each hashable |
| Merkle.ProofFromStep | frontend/src/utils/merkle.js:56-69 | one step records the normalised sibling and continues from the halved index, which stays inside the level above |
| Merkle.ProofFromAt | frontend/src/utils/merkle.js:55-70 | entry j is the normalised sibling, at level j, of the index halved j times, and that index is inside level j |
| Merkle.MerkleProof | frontend/src/utils/merkle.js:46-72 | no proof when the normalised target is absent (or the list empty), whatever the leaves hold; otherwise one entry per level below the root |
| Merkle.MerkleProofAbsentNonHex | frontend/src/utils/merkle.js:46-50 | leaves that are not hex text, such as "zz" and "yy", still give the empty proof for an absent target, since no pair is hashed |
| Merkle.MerkleProofFirstIndex | frontend/src/utils/merkle.js:50-51 | the proof is that of the first position holding the target |
| Merkle.ProofPath | frontend/src/utils/merkle.js:53-70 | the proof loop records exactly the specified siblings |
| Merkle.GetMerkleProof | frontend/src/utils/merkle.js:46-72 | the method returns the specified proof |
| Merkle.PairWithSibling | frontend/src/utils/merkle.js:56-58 | hashing a node with the sibling the proof records gives its parent |
| Merkle.ProofFromRecombines | frontend/src/utils/merkle.js:53-70 | folding the pair hash over the proof of any node gives the top node |
| Merkle.MerkleProofRecombines | frontend/src/utils/merkle.js:46-78 | for every target in the list, folding sorted `hashPair` over its proof from the normalised target gives `getMerkleRoot` |
| Merkle.GetProofAndRoot | frontend/src/utils/merkle.js:74-78 | returns the proof and the root computed independently, and they recombine for a present target with sorted pairs |
| Merkle.DigestLeavesWellFormed | frontend/src/utils/merkle.js:18 | leaves made by `keccak256` are always accepted by `getBytes` |
| CliArgs.ParseCliArgs | scripts/set-merkle-root.js:11-35 | the loop, with its second `i++`, builds the dictionary of the specification |
| CliArgs.ParseFrom | scripts/set-merkle-root.js:14-33 | parsing on from token i keeps every key already bound, and adds no key holding '=' |
| CliArgs.Parse | scripts/set-merkle-root.js:11-35 | starting from the empty dictionary, no key of the result holds '=' |
| CliArgs.OptionKey | scripts/set-merkle-root.js:17-23 | the key is the text after "--" up to the first '=', and holds no '=' |
| CliArgs.ParseKeys | scripts/set-merkle-root.js:14-33 | every key of the result is named by some option token |
| CliArgs.ParseAppend | scripts/set-merkle-root.js:14-33 | parsing splits at any option token, so later options overwrite earlier ones |
| CliArgs.ParseAssignment | scripts/set-merkle-root.js:17-21 | `--k=v` binds k to everything after the first '=', a later binding overwriting an earlier one |
| CliArgs.ParseFlag | scripts/set-merkle-root.js:29 | a trailing bare `--k` binds `true` |
| CliArgs.ParseSeparateValue | scripts/set-merkle-root.js:23-30 | `--k v` binds v when v is non-empty and not an option, `true` otherwise, and an option v is then parsed in its own right |
| CliArgs.ParsePlainToken | scripts/set-merkle-root.js:14-16 | a token that is not an option and is not consumed as a value adds no key |
| CliArgs.EnsureHex32 | scripts/set-merkle-root.js:37-41 | only a string of 66 characters starting with "0x" passes |
| CliArgs.EnsureHex32Accepts | scripts/set-merkle-root.js:37-41 | a string passes exactly when it has 66 characters and starts with "0x"; every Keccak digest passes |
| CliArgs.EnsureHex32NotHex | scripts/set-merkle-root.js:40 | the 64 characters after "0x" are not checked to be hex digits |
| CliArgs.EnsureHex32NonString | scripts/set-merkle-root.js:38 | a value that is not a string (the flag `true`) is refused |
| CliArgs.EnsureHex32OfRoot | scripts/set-merkle-root.js:37-41 | the root of two or more leaves passes; the "0x" of an empty list does not |
| CliArgs.NormalizeAddresses | scripts/set-merkle-root.js:60-64 | no longer than the input; every entry is non-empty and trimmed |
| CliArgs.NormalizeAppend | scripts/set-merkle-root.js:60-64 | normalisation preserves order: a concatenation is normalised piecewise |
| CliArgs.NormalizeMembership | scripts/set-merkle-root.js:60-64 | an address is in the result exactly when it is the non-empty trim of some string of the input |
| CliArgs.NormalizeClean | scripts/set-merkle-root.js:60-64 | a list of trimmed non-empty strings comes back unchanged |
| Session.GenerateSignMessage | frontend/src/auth.js:10-12 | the message starts with the fixed welcome text |
| Session.SignMessageTimestamp | frontend/src/auth.js:10-12 | the timestamp can be read back from the message |
| Session.SignMessageInjective | frontend/src/auth.js:10-12 | distinct timestamps give distinct messages |
| Session.Load | frontend/src/auth.js:17-39 | no key or an empty value: nothing, storage unchanged; an unparsable value: nothing, key removed; a stored session: returned exactly when not expired, the key removed when expired and kept otherwise |
| Session.NewSession | frontend/src/auth.js:44-51 | the record holds the given address lower-cased, the given signature and timestamp, and `expiresAt` 24 hours after the timestamp |
| Session.LoadAfterSave | frontend/src/auth.js:17-59 | right after a save the saved record is read back while live; once expired the read returns nothing and removes it |
| Session.LoadAfterClear | frontend/src/auth.js:64-70 | after a clear no session is found and the storage stays cleared |
| Session.LoadIdempotent | frontend/src/auth.js:17-39 | a second read at the same time gives the same answer and storage |
| Session.LoadEarlier | frontend/src/auth.js:24-31 | a session live now was live at every earlier time |
| Session.Validate | frontend/src/auth.js:75-80 | valid exactly when the address is non-empty, a live session is stored, and its address is the given one lower-cased; the storage is left as `Load` leaves it |
| Session.LoginStatus | frontend/src/auth.js:143-146 | an empty address answers false and leaves the storage alone; any other answers as `Validate` |
| Session.ExpiryIgnoresExpiresAt | frontend/src/auth.js:26-28 | expiry is decided by `timestamp`, never by `expiresAt` |
| Session.OtherKeysUntouched | frontend/src/auth.js:19-66 | reading, saving and clearing touch no other storage key |
| Session.ValidAfterSave | frontend/src/auth.js:75-80 | after a save the session is valid for an address exactly when it is non-empty, equal to the saved one ignoring case, and the session is live |
| Session.LoginStatusAgrees | frontend/src/auth.js:143-146 | `checkLoginStatus` answers as `isSessionValid`, and on an empty address does not read the storage |
| Session.SessionStore.GetLocalSession | frontend/src/auth.js:17-39 | the method returns and leaves what `Load` specifies |
| Session.SessionStore.SaveLocalSession | frontend/src/auth.js:44-59 | stores and returns the new record under the key |
| Session.SessionStore.ClearLocalSession | frontend/src/auth.js:64-70 | removes the key |
| Session.SessionStore.IsSessionValid | frontend/src/auth.js:75-80 | answers and updates the storage as `Validate` specifies |
| Session.SessionStore.SignLogout | frontend/src/auth.js:134-138 | removes the key, reports success, and no address is logged in afterwards |
| Session.SessionStore.CheckLoginStatus | frontend/src/auth.js:143-146 | answers as `LoginStatus`; an empty address is refused without touching the storage |
| Networks.NetworkByKey | frontend/src/utils/networks.js:49 | a lookup by key finds the table entry with that key, or nothing when no entry has it |
| Networks.DefaultNetwork | frontend/src/utils/networks.js:45 | an unset or empty setting falls back to "sepolia" |
| Networks.CurrentNetworkConfig | frontend/src/utils/networks.js:48-50 | the configuration is one of the supported networks, Sepolia when the configured key names none |
| Networks.GetExplorerUrl | frontend/src/utils/networks.js:59-63 | the URL starts with the current network's first explorer URL and ends with "/" and the hash |
| Networks.CurrentNetworkConfigChoice | frontend/src/utils/networks.js:48-50 | the configured network when it is a table key, Sepolia otherwise |
| Networks.FindByChainId | frontend/src/utils/networks.js:55 | the entry found has the given chain id; nothing found means no entry has it |
| Networks.GetNetworkByChainId | frontend/src/utils/networks.js:53-56 | a string chain id never matches |
| Networks.TableDistinct | frontend/src/utils/networks.js:2-42 | chain ids and keys are pairwise distinct |
| Networks.TableHexIds | frontend/src/utils/networks.js:2-42 | each `chainIdHex` is "0x" and the hex digits of `chainId` |
| Networks.GetNetworkByChainIdExact | frontend/src/utils/networks.js:53-56 | a number finds exactly the entry with that chain id, and a bigint finds the same entry as the equal number |
| Networks.HexChainIdNotFound | frontend/src/utils/networks.js:54-55 | "0xaa36a7" finds nothing while 11155111 finds Sepolia |
| Networks.ExplorerUrlShape | frontend/src/utils/networks.js:59-63 | the link is the explorer base, the kind ("tx" by default), "/" and the hash |
| Ipfs.IpfsToHttp | frontend/src/utils/ipfs.js:1-7 | anything not starting with "ipfs://" is returned as is |
| Ipfs.IpfsToHttpOfIpfs | frontend/src/utils/ipfs.js:3-5 | "ipfs://" + X becomes "https://ipfs.io/ipfs/" + X |
| Ipfs.IpfsToHttpIdempotent | frontend/src/utils/ipfs.js:1-7 | rewriting twice is rewriting once |
| Ipfs.Head | frontend/src/utils/ipfs.js:11 | `slice(0, 6)` has min(6, length) characters |
| Ipfs.Tail | frontend/src/utils/ipfs.js:11 | `slice(-4)` has min(4, length) characters |
| Ipfs.ShortenAddress | frontend/src/utils/ipfs.js:9-12 | an empty address gives the empty string |
| Ipfs.ShortenAddressShape | frontend/src/utils/ipfs.js:11 | an address of ten characters or more gives 13: its first six, "..." and its last four |
| Ipfs.ShortenShortAddress | frontend/src/utils/ipfs.js:11 | an address under four characters appears whole on both sides of "..." |
| LocalMetadata.RewriteAssetsPath | scripts/publish-local-metadata.js:36 | a string not starting with "./assets/" or ".assets/" is kept |
| LocalMetadata.RewriteImage | scripts/publish-local-metadata.js:31-37 | only the image changes |
| LocalMetadata.RewriteAssetsPathCases | scripts/publish-local-metadata.js:36 | "./assets/x" and ".assets/x" become "/assets/x", which is itself kept |
| LocalMetadata.RewriteImageCases | scripts/publish-local-metadata.js:31-37 | a truthy `originalFilename` gives "/assets/" + that name; otherwise relative assets paths become absolute and a non-string image is kept |
| LocalMetadata.RewriteImageIdempotent | scripts/publish-local-metadata.js:31-37 | publishing twice gives what publishing once gives |
| LocalMetadata.JsonFiles | scripts/publish-local-metadata.js:24 | exactly the listed files ending in ".json" in any case |
| LocalMetadata.Published | scripts/publish-local-metadata.js:24-42 | one entry per JSON file |
| LocalMetadata.PublishMetadataToPublic | scripts/publish-local-metadata.js:20-43 | the loop returns the specified entries |
| LocalMetadata.PublishedEntries | scripts/publish-local-metadata.js:26-41 | each entry names a listed JSON file and carries its content with the image rewritten |
| LocalMetadata.ToTemplate | scripts/publish-local-metadata.js:48-60 | the URI is the dev base, the parsed id and ".json" |
| LocalMetadata.ToTemplateDefaults | scripts/publish-local-metadata.js:50-52 | a falsy name becomes "Template <id>", a falsy rarity "Common", and only a null or missing supply becomes 10 (0 is kept) |
| LocalMetadata.FileIdOfCanonicalName | scripts/publish-local-metadata.js:49-55 | a file named "<id>.json" gets that id back and the URI ending "<id>.json" |
| LocalMetadata.InsertById | scripts/publish-local-metadata.js:62 | inserting adds exactly one template |
| LocalMetadata.InsertByIdSorted | scripts/publish-local-metadata.js:62 | inserting into a sorted list keeps it sorted |
| LocalMetadata.SortById | scripts/publish-local-metadata.js:62 | the sort is a permutation |
| LocalMetadata.SortByIdSorted | scripts/publish-local-metadata.js:62 | the sorted list ascends by template id |
| LocalMetadata.UpdateTemplatesHTTP | scripts/publish-local-metadata.js:45-73 | one template per published file, each with its id set; null folder CID, the dev base as base and gateway URL, upload method "http-local-dev" |
| LocalMetadata.UpdateTemplatesProperties | scripts/publish-local-metadata.js:45-73 | one template per published file, ascending by id, a permutation of the mapped entries, each URI being the dev base, its id and ".json" |
| UploadRules.GetRarity | scripts/upload-backup.js:233-238 | Common exactly at index 0; Epic exactly at a last index other than 0; Rare exactly at index 1 unless there are two images; Uncommon everywhere else |
| UploadRules.RarityLayout | scripts/upload-backup.js:233-238 | a collection reads Common, Rare, Uncommon…, Epic; two images are Common, Epic; one is Common |
| UploadRules.RarityCounts | scripts/upload-selectable-nfts.js:176-181 | two images or more hold exactly one Common and one Epic; from three on one Rare and the rest Uncommon |
| UploadRules.GetMaxSupply | scripts/upload-backup.js:240-248 | 25 exactly for a text outside the four rarities |
| UploadRules.SupplyByRarity | scripts/upload-backup.js:240-248 | rarer means fewer copies, and a rarity from `getRarity` never falls back to 25 |
| UploadRules.CollectionSupply | scripts/upload-backup.js:140-147 | a collection allows 50, 60, or 80 + 30 per middle image copies in total |
| UploadRules.ImageFiles | scripts/upload-backup.js:48-50 | exactly the listed files with an image extension in any case |
| UploadRules.GetMimeType | scripts/upload-backup.js:221-231 | always one of the four image types |
| UploadRules.MimeTypeOfExtension | scripts/upload-backup.js:221-231 | the type depends on the extension alone, whatever its case |
| UploadRules.ImageFileMimeType | scripts/upload-backup.js:221-231 | a file the image filter keeps gets the type of the extension it matched |
| UploadRules.Capitalize | scripts/upload-backup.js:177 | the first character upper-cased, the rest kept |
| UploadRules.GetDisplayName | scripts/upload-backup.js:170-178 | a mapped name shows as its table entry; any other as "NFT " followed by the name capitalised |
| UploadRules.DisplayNameFallback | scripts/upload-backup.js:170-178 | an unmapped name shows as "NFT " and the name capitalised, from which it is recovered up to case |
| UploadRules.DisplayNameInjective | scripts/upload-backup.js:170-178 | two names share a display name only when equal up to the case of their first letter |
| UploadRules.KnownNamesDiffer | scripts/upload-backup.js:170-178 | mapped names never collide with fallback names |
| UploadRules.GetDescription | scripts/upload-backup.js:180-188 | a mapped name gets its table entry; any other gets the name between the fixed prefix and suffix |
| UploadRules.DescriptionFallback | scripts/upload-selectable-nfts.js:120-128 | the description table covers the same names, and the fallback quotes the name between fixed texts |
| UploadRules.GetAttributes | scripts/upload-selectable-nfts.js:131-160 | always three traits: color theme, style, rarity |
| UploadRules.AttributesIgnoreIndex | scripts/upload-selectable-nfts.js:131-160 | the index is ignored; unmapped names get Unknown, Custom, Common |
| UploadRules.KnownCollectionConsistent | scripts/upload-backup.js:190-219 | the four named images in order carry the rarity trait their position gives them |
| UploadRules.ImageMetadata | scripts/upload-backup.js:94-107 | the metadata of image i has template id i, its file name, the rarity of position i and, when written, its supply |
| UploadRules.MetadataFileNames | scripts/upload-backup.js:111 | "i.json" parses back to i, so distinct positions give distinct names |
| UploadRules.MetadataURIParts | scripts/upload-backup.js:143 | a metadata URI is the folder base followed by the template's own file name, so URIs are distinct |
| UploadBackup.CollectImageUploads | scripts/upload-backup.js:60-71 | the loop collects every image with its MIME type, in order |
| UploadBackup.ImageOf | scripts/upload-backup.js:97-99 | the image is a link: "ipfs://", the images CID, "/" and the file name when there is a CID, "./assets/" and the file name otherwise |
| UploadBackup.GenerateMetadataFiles | scripts/upload-backup.js:89-118 | the loop produces the specified files |
| UploadBackup.BackupConfig | scripts/upload-backup.js:122-150 | the folder id is the uploaded one, or the placeholder id when the metadata upload failed; base and gateway URL are built from it; the upload method is "public-ipfs" exactly when the images were uploaded; the templates are those of that folder, one per image |
| UploadBackup.Templates | scripts/upload-backup.js:138-149 | one template per image; template i has id i, the image's file name, the metadata URI of i, the rarity of position i and that rarity's supply |
| UploadBackup.TemplateMatchesMetadata | scripts/upload-backup.js:133-149 | template i agrees with metadata file i on id, name, file, rarity and supply, and its URI is the base URI followed by that file's name |
| UploadBackup.TemplateRarities | scripts/upload-backup.js:138-149 | the templates carry the collection's rarities in order, and their supplies add up to its total |
| UploadBackup.TemplateURIsDistinct | scripts/upload-backup.js:143 | distinct templates point at distinct metadata files |
| UploadBackup.PublishedImage | scripts/upload-backup.js:97-111 | published for the dev server, every file shows its image under "/assets/" and its name gives back its id |
| SelectableUpload.SelectableFiles | scripts/upload-selectable-nfts.js:32-52 | one file per image; file i is "i.json" with template id i, no supply, and the image attached as an upload |
| SelectableUpload.SelectableFilesShape | scripts/upload-selectable-nfts.js:39-52 | file i is "i.json" with template id i, the rarity of position i, no supply and the image attached with its type |
| SelectableUpload.CollectMetadata | scripts/upload-selectable-nfts.js:32-61 | the loop produces the specified files and template records |
| SelectableUpload.SelectableTemplateData | scripts/upload-selectable-nfts.js:21-23 | there is template data exactly when there is an image |
| SelectableUpload.SameTemplatesAsBackup | scripts/upload-selectable-nfts.js:85-97 | the template data equals the fallback script's list for the same images and folder |
| SelectableUpload.Placeholders | scripts/upload-selectable-fixed.js:25-39 | there are four placeholders |
| SelectableUpload.MakePlaceholders | scripts/upload-selectable-fixed.js:25-39 | the loop produces the specified placeholders |
| SelectableUpload.PlaceholderNames | scripts/upload-selectable-fixed.js:25-38 | the placeholders are "0.json" to "3.json", each naming its own id |
| SelectableUpload.PlaceholderRarityDiffers | scripts/upload-selectable-fixed.js:33 | the placeholder rule agrees with `getRarity` over four images except at index 2 (Rare, not Uncommon), giving two Rare files |
| SelectableUpload.FixedUploadOf | scripts/upload-selectable-fixed.js:21-94 | the placeholder folder (four placeholders) exactly when there is no image, otherwise one metadata file per image |
| SelectableUpload.UploadFixed | scripts/upload-selectable-fixed.js:21-94 | placeholders and count 4 without images, otherwise one file per image and their count |
| SelectableUpload.FixedUploadCount | scripts/upload-selectable-fixed.js:48-94 | the returned count is the number of files uploaded, and file i is "i.json" |

## Left out

- Keccak-256, `ethers.concat` and the address leaf encoding are foreign calls.
  - The hash is a parameter of type `seq<byte> -> Bytes32`.
  - `ethers.getBytes` and `ethers.hexlify` are modelled as hex decoding and encoding.
- `computeMerkleRoot` in `scripts/set-merkle-root.js` delegates to merkletreejs, which is not part of this model. No claim relates its root to `Merkle.GetMerkleRoot`.
- The `main` functions of the scripts are not modelled: file-system reads and writes, `readline` prompts, Hardhat transactions, nft.storage and IPFS uploads, and console output (including the printed test links). Their results enter as parameters:
  - the directory listing (`names`, `imageFiles`);
  - the parsed file contents (`read`);
  - the folder ids returned by the uploads (`imagesCid`, `uploadedCid`, `folderCid`).
- `signLogin` is not modelled. It needs a wallet signer, `ethers.verifyMessage` and `Date.now`.
- The React views, `GAS_LEVELS` and its floating-point multipliers, and timers are not modelled.
- Merkle.GetMerkleRoot, Merkle.BuildLevels, Merkle.GetProofAndRoot require every leaf of a list of two or more to be hex text. Otherwise `ethers.getBytes` throws, and that exception is not modelled. Merkle.MerkleProof and Merkle.GetMerkleProof require it only when the normalised target is among the leaves, since an absent target returns the empty proof before any pair is hashed.
- Merkle.MerkleProofRecombines excludes the empty-string target. For the list `[""]` the root is "0x" while the leaf stays "", so they do not recombine.
- Merkle.ProofPath computes the sibling with the same `isRightNode` / `pairIndex` rule as the source, but through the helper function `Sibling`.
- Session: values under the key are modelled as three cases:
  - the empty string;
  - a session record;
  - text `JSON.parse` rejects.

  The JSON encoding itself is not modelled. Neither are parsed values that are not records, such as `null`, for which reading `timestamp` throws and the catch clears the key.
  A record always carries an integer `timestamp`. A stored record without one never expires in the source (`undefined + 86400000` is `NaN`, and `now > NaN` is false), so `getLocalSession` returns it forever; the model has no such record.
- Session.SessionStore.SaveLocalSession: always succeeds. A `localStorage` quota error, for which the source returns `null`, is not modelled.
- Session: times are unbounded integers. JavaScript numbers are doubles.
- Networks.GetNetworkByChainId: a `bigint` is compared by value. The precision `Number` loses above 2^53 is not modelled.
- `Object.prototype` keys are not modelled. A name such as "constructor" would find an inherited property in the script tables (`nameMap`, `descMap`, `attributeMap`, `supplyMap`, `mimeMap`) and in `SUPPORTED_NETWORKS`.
- CliArgs.Parse: binds every option key, including "__proto__". `parseCliArgs` writes into a plain `{}` (scripts/set-merkle-root.js:13), so `--__proto__=x` or a bare `--__proto__` adds no key there; CliArgs.ParseFrom, CliArgs.ParseAssignment, CliArgs.ParseFlag and CliArgs.ParseSeparateValue hold for every other key.
- Case mapping is ASCII only.
  - Affected: `toLowerCase` / `toUpperCase` in `toLowerHex32`, `saveLocalSession`, the file filters and `getDisplayName`.
  - Strings are sequences of characters, not UTF-16 code units, so `length` and `slice` count characters.
- UploadRules.GetMimeType, LocalMetadata.FileId require a file name without '/'. The names come from a directory listing, so `path.extname` and `path.parse` never see a directory part.
- LocalMetadata.UpdateTemplatesHTTP requires every file name to parse as an integer. Otherwise the `NaN` id makes the sort comparator inconsistent, and the resulting order depends on the engine.
- LocalMetadata.SortByIdSorted states ascending order and permutation, but not the stability of `Array.prototype.sort`.
- LocalMetadata: only the metadata fields the script reads are modelled (`name`, `image`, `properties`). Invalid JSON, which throws, is not modelled, and neither is a non-object document.
- Falsy JavaScript values are modelled as the empty string:
  - a null or undefined address (`Ipfs`, `Session`);
  - the `null` image folder id of the fallback upload script.
- UploadBackup.BackupConfig is defined for an empty image list as well. The script returns before writing anything in that case.
- SelectableUpload: an attached image is modelled by its file name and MIME type. The image bytes are not modelled.
