/** The table of supported chains and the lookups the pages make in it:
    the configured network, the network of a chain id reported by the
    wallet, and block-explorer links. The build-time setting
    `REACT_APP_NETWORK` is the parameter `env`. */
module Networks {
  import opened Wrappers
  import opened JsStrings

  datatype Currency = Currency(name: string, symbol: string, decimals: nat)

  datatype Network = Network(
    key: string,
    chainId: nat,
    chainIdHex: string,
    name: string,
    nativeCurrency: Currency,
    rpcUrls: seq<string>,
    blockExplorerUrls: seq<string>,
    explorerName: string)

  const Sepolia: Network := Network(
    "sepolia", 11155111, "0xaa36a7", "Sepolia Test Network",
    Currency("SepoliaETH", "ETH", 18),
    ["https://sepolia.infura.io/v3/"], ["https://sepolia.etherscan.io/"], "Etherscan")

  const BaseSepolia: Network := Network(
    "baseSepolia", 84532, "0x14a34", "Base Sepolia",
    Currency("ETH", "ETH", 18),
    ["https://sepolia.base.org"], ["https://sepolia.basescan.org/"], "BaseScan")

  const Polygon: Network := Network(
    "polygon", 80001, "0x13881", "Polygon Mumbai",
    Currency("MATIC", "MATIC", 18),
    ["https://rpc-mumbai.maticvigil.com/"], ["https://mumbai.polygonscan.com/"], "PolygonScan")

  /** `Object.values(SUPPORTED_NETWORKS)`, in declaration order; each
      entry carries its key. */
  const SUPPORTED_NETWORKS: seq<Network> := [Sepolia, BaseSepolia, Polygon]

  /** `SUPPORTED_NETWORKS[key]` */
  function NetworkByKey(key: string): (r: Option<Network>)
    ensures r.Some? ==> r.value in SUPPORTED_NETWORKS && r.value.key == key
    ensures r.None? ==> forall n :: n in SUPPORTED_NETWORKS ==> n.key != key
  {
    if key == Sepolia.key then Some(Sepolia)
    else if key == BaseSepolia.key then Some(BaseSepolia)
    else if key == Polygon.key then Some(Polygon)
    else None
  }

  /** `process.env.REACT_APP_NETWORK || 'sepolia'`: unset or empty falls
      back to "sepolia". */
  function DefaultNetwork(env: Option<string>): (key: string)
    ensures env.Some? && env.value != [] ==> key == env.value
    ensures env.None? || env.value == [] ==> key == "sepolia"
  {
    if env.Some? && env.value != [] then env.value else "sepolia"
  }

  /** `getCurrentNetworkConfig()` */
  function CurrentNetworkConfig(env: Option<string>): (n: Network)
    ensures n in SUPPORTED_NETWORKS
    ensures NetworkByKey(DefaultNetwork(env)).None? ==> n == Sepolia
  {
    NetworkByKey(DefaultNetwork(env)).GetOr(Sepolia)
  }

  /** The configured network is used when it names an entry of the table;
      anything else, unset included, gives Sepolia. */
  lemma CurrentNetworkConfigChoice(env: Option<string>)
    ensures CurrentNetworkConfig(env) in SUPPORTED_NETWORKS
    ensures (exists n :: n in SUPPORTED_NETWORKS && n.key == DefaultNetwork(env)) ==>
      CurrentNetworkConfig(env).key == DefaultNetwork(env)
    ensures (forall n :: n in SUPPORTED_NETWORKS ==> n.key != DefaultNetwork(env)) ==>
      CurrentNetworkConfig(env) == Sepolia
  {
  }

  /** The argument of `getNetworkByChainId`: a wallet may report the id as
      a `bigint`, a number or a hex string. */
  datatype ChainIdArg = BigInt(big: int) | Number(num: int) | Text(text: string)

  /** `networks.find(n => n.chainId === id)` */
  function FindByChainId(networks: seq<Network>, id: int): (r: Option<Network>)
    ensures r.Some? ==> r.value in networks && r.value.chainId == id
    ensures r.None? ==> forall n :: n in networks ==> n.chainId != id
  {
    if networks == [] then None
    else if networks[0].chainId == id then Some(networks[0])
    else FindByChainId(networks[1..], id)
  }

  /** `getNetworkByChainId(chainId)`: a `bigint` is converted with
      `Number`; a string is compared as is with `===` and never matches a
      numeric id. */
  function GetNetworkByChainId(chainId: ChainIdArg): (r: Option<Network>)
    ensures chainId.Text? ==> r.None?
  {
    match chainId
    case BigInt(n) => FindByChainId(SUPPORTED_NETWORKS, n)
    case Number(n) => FindByChainId(SUPPORTED_NETWORKS, n)
    case Text(_) => None
  }

  /** No two entries share a chain id or a key. */
  lemma TableDistinct()
    ensures forall i, j :: 0 <= i < j < |SUPPORTED_NETWORKS| ==>
      SUPPORTED_NETWORKS[i].chainId != SUPPORTED_NETWORKS[j].chainId
      && SUPPORTED_NETWORKS[i].key != SUPPORTED_NETWORKS[j].key
  {
  }

  /** Each `chainIdHex` is "0x" and the hexadecimal digits of `chainId`. */
  lemma TableHexIds()
    ensures forall n :: n in SUPPORTED_NETWORKS ==> n.chainIdHex == "0x" + NatToHex(n.chainId)
  {
    forall n | n in SUPPORTED_NETWORKS
      ensures n.chainIdHex == "0x" + NatToHex(n.chainId)
    {
      if n == Sepolia {
        SepoliaHex();
      } else if n == BaseSepolia {
        BaseSepoliaHex();
      } else {
        PolygonHex();
      }
    }
  }

  lemma SepoliaHex()
    ensures Sepolia.chainIdHex == "0x" + NatToHex(Sepolia.chainId)
  {
    assert Sepolia.chainId == 11155111;
    assert NatToHex(10) == "a";
    assert NatToHex(170) == "aa";
    assert NatToHex(2723) == "aa3";
    assert NatToHex(43574) == "aa36";
    assert NatToHex(697194) == "aa36a";
    assert NatToHex(11155111) == "aa36a7";
  }

  lemma BaseSepoliaHex()
    ensures BaseSepolia.chainIdHex == "0x" + NatToHex(BaseSepolia.chainId)
  {
    assert BaseSepolia.chainId == 84532;
    assert NatToHex(1) == "1";
    assert NatToHex(20) == "14";
    assert NatToHex(330) == "14a";
    assert NatToHex(5283) == "14a3";
    assert NatToHex(84532) == "14a34";
  }

  lemma PolygonHex()
    ensures Polygon.chainIdHex == "0x" + NatToHex(Polygon.chainId)
  {
    assert Polygon.chainId == 80001;
    assert NatToHex(1) == "1";
    assert NatToHex(19) == "13";
    assert NatToHex(312) == "138";
    assert NatToHex(5000) == "1388";
    assert NatToHex(80001) == "13881";
  }

  /** A numeric id finds exactly the entry with that chain id, and a
      `bigint` finds the same entry as the equal number. */
  lemma GetNetworkByChainIdExact(n: int, net: Network)
    ensures GetNetworkByChainId(Number(n)) == Some(net) <==> net in SUPPORTED_NETWORKS && net.chainId == n
    ensures GetNetworkByChainId(BigInt(n)) == GetNetworkByChainId(Number(n))
  {
    TableDistinct();
  }

  /** The hex text of a chain id, as a wallet reports it, finds nothing,
      though the number it stands for does. */
  lemma HexChainIdNotFound()
    ensures GetNetworkByChainId(Text(Sepolia.chainIdHex)) == None
    ensures GetNetworkByChainId(Number(Sepolia.chainId)) == Some(Sepolia)
  {
  }

  /** `getExplorerUrl(hash, type)`: `type` is `'tx'` when left out. */
  function GetExplorerUrl(env: Option<string>, hash: string, kind: Option<string>): (url: string)
    ensures StartsWith(url, CurrentNetworkConfig(env).blockExplorerUrls[0])
    ensures EndsWith(url, "/" + hash)
  {
    var baseUrl := CurrentNetworkConfig(env).blockExplorerUrls[0];
    UrlParts(baseUrl, kind.GetOr("tx"), hash);
    baseUrl + kind.GetOr("tx") + "/" + hash
  }

  /** The link is the configured explorer's base, the kind, a slash and
      the hash, so the hash can be read back from its end. */
  lemma ExplorerUrlShape(env: Option<string>, hash: string, kind: Option<string>)
    ensures var url := GetExplorerUrl(env, hash, kind);
      var base := CurrentNetworkConfig(env).blockExplorerUrls[0];
      var k := kind.GetOr("tx");
      StartsWith(url, base)
      && url[|base|..] == k + "/" + hash
      && EndsWith(url, "/" + hash)
    ensures kind.None? ==> GetExplorerUrl(env, hash, kind) == GetExplorerUrl(env, hash, Some("tx"))
  {
    var base := CurrentNetworkConfig(env).blockExplorerUrls[0];
    UrlParts(base, kind.GetOr("tx"), hash);
  }

  lemma UrlParts(base: string, kind: string, hash: string)
    ensures var url := base + kind + "/" + hash;
      StartsWith(url, base) && url[|base|..] == kind + "/" + hash && EndsWith(url, "/" + hash)
  {
    var url := base + kind + "/" + hash;
    assert url == base + (kind + "/" + hash);
    assert url[..|base|] == base;
    assert url == (base + kind) + ("/" + hash);
    assert url[|url| - |"/" + hash|..] == "/" + hash;
  }
}
