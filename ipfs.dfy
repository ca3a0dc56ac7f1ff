/** The two display helpers of the pages: rewriting `ipfs://` links to the
    public gateway, and shortening a wallet address. Falsy strings are
    represented by the empty string. */
module Ipfs {
  import opened JsStrings

  const IPFS_SCHEME: string := "ipfs://"

  const IPFS_GATEWAY: string := "https://ipfs.io/ipfs/"

  /** `ipfsToHttp(url)`: the empty string is returned as is; a leading
      "ipfs://" (the first occurrence, which `replace` rewrites) becomes
      the gateway prefix; anything else is returned as is. */
  function IpfsToHttp(url: string): (r: string)
    ensures !StartsWith(url, IPFS_SCHEME) ==> r == url
  {
    if url == [] then url
    else if StartsWith(url, IPFS_SCHEME) then IPFS_GATEWAY + url[|IPFS_SCHEME|..]
    else url
  }

  /** The content path after "ipfs://" is kept and put behind the gateway. */
  lemma IpfsToHttpOfIpfs(path: string)
    ensures IpfsToHttp(IPFS_SCHEME + path) == IPFS_GATEWAY + path
  {
    var url := IPFS_SCHEME + path;
    assert url[..|IPFS_SCHEME|] == IPFS_SCHEME;
    assert url[|IPFS_SCHEME|..] == path;
  }

  /** A gateway link does not start with "ipfs://", so a second rewrite
      changes nothing. */
  lemma IpfsToHttpIdempotent(url: string)
    ensures IpfsToHttp(IpfsToHttp(url)) == IpfsToHttp(url)
  {
    var r := IpfsToHttp(url);
    if url != [] && StartsWith(url, IPFS_SCHEME) {
      assert r[0] == 'h';
    }
  }

  /** `address.slice(0, 6)` */
  function Head(address: string): (h: string)
    ensures |h| == if |address| < 6 then |address| else 6
  {
    if |address| < 6 then address else address[..6]
  }

  /** `address.slice(-4)` */
  function Tail(address: string): (t: string)
    ensures |t| == if |address| < 4 then |address| else 4
  {
    if |address| < 4 then address else address[|address| - 4..]
  }

  /** `shortenAddress(address)` */
  function ShortenAddress(address: string): (r: string)
    ensures address == [] ==> r == []
  {
    if address == [] then [] else Head(address) + "..." + Tail(address)
  }

  /** For an address of ten characters or more the short form has 13
      characters: the first six, "...", and the last four. */
  lemma ShortenAddressShape(address: string)
    requires |address| >= 10
    ensures var r := ShortenAddress(address);
      |r| == 13 && r[..6] == address[..6] && r[6..9] == "..." && r[9..] == address[|address| - 4..]
  {
    var r := ShortenAddress(address);
    assert r == address[..6] + ("..." + address[|address| - 4..]);
  }

  /** Shorter non-empty addresses keep all their characters on each side of
      "...", which then overlap. */
  lemma ShortenShortAddress(address: string)
    requires 0 < |address| < 4
    ensures ShortenAddress(address) == address + "..." + address
  {
  }
}
