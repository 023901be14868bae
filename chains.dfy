/**
 * The fixed table of supported chains (`CHAIN_CONFIG` in fetcher.py): for each
 * chain, the name the user types, the block-explorer endpoint (none for Solana,
 * which is reached through a JSON-RPC URL instead) and the name of the
 * credential under which its API key or RPC URL is stored.
 */
module Chains {
  import opened Common

  datatype Chain = Ethereum | Polygon | Bsc | Base | Avalanche | Solana

  /** The key of the chain in `CHAIN_CONFIG`, as the user types it. */
  function Name(c: Chain): string
  {
    match c
    case Ethereum => "ethereum"
    case Polygon => "polygon"
    case Bsc => "bsc"
    case Base => "base"
    case Avalanche => "avalanche"
    case Solana => "solana"
  }

  /** The `explorer` entry: an Etherscan-family endpoint, or none for Solana. */
  function Explorer(c: Chain): (url: Option<string>)
    ensures url.None? <==> c == Solana
  {
    match c
    case Ethereum => Some("https://api.etherscan.io/api")
    case Polygon => Some("https://api.polygonscan.com/api")
    case Bsc => Some("https://api.bscscan.com/api")
    case Base => Some("https://api.basescan.org/api")
    case Avalanche => Some("https://api.snowtrace.io/api")
    case Solana => None
  }

  /** The `env_key` entry: the credential name used in the configuration store. */
  function EnvKey(c: Chain): string
  {
    match c
    case Ethereum => "ETHERSCAN_API_KEY"
    case Polygon => "POLYGONSCAN_API_KEY"
    case Bsc => "BSCSCAN_API_KEY"
    case Base => "BASESCAN_API_KEY"
    case Avalanche => "AVASCAN_API_KEY"
    case Solana => "SOLANA_RPC_URL"
  }

  /** An EVM chain is one that is queried through a block explorer. */
  predicate IsEvm(c: Chain)
  {
    Explorer(c).Some?
  }

  /**
   * Membership test `chain in CHAIN_CONFIG`: the chain whose key is exactly
   * `s`, if there is one.
   */
  function Lookup(s: string): (r: Option<Chain>)
    ensures r.Some? ==> Name(r.value) == s
  {
    if s == "ethereum" then Some(Ethereum)
    else if s == "polygon" then Some(Polygon)
    else if s == "bsc" then Some(Bsc)
    else if s == "base" then Some(Base)
    else if s == "avalanche" then Some(Avalanche)
    else if s == "solana" then Some(Solana)
    else None
  }

  /** Every chain's own name is found again by the lookup, so no key is shadowed. */
  lemma LookupName(c: Chain)
    ensures Lookup(Name(c)) == Some(c)
  {
  }

  /** The lookup succeeds exactly on the six names of the table. */
  lemma LookupExact(s: string, c: Chain)
    ensures Lookup(s) == Some(c) <==> s == Name(c)
  {
    if s == Name(c) {
      LookupName(c);
    }
  }

  /**
   * Distinct chains keep their credentials under distinct names, so storing
   * the credential of one chain never overwrites that of another.
   */
  lemma EnvKeyInjective(c: Chain, d: Chain)
    ensures EnvKey(c) == EnvKey(d) <==> c == d
  {
  }
}
