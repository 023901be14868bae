/**
 * The credential store: the configuration dictionary loaded at start-up, which
 * maps credential names (`env_key` of the chain table) to API keys or RPC
 * URLs, and `get_api_key`, which returns the stored credential of a chain or
 * stores the one the user supplies.
 */
module Credentials {
  import opened Chains

  /** A stored value counts as present only when it is a non-empty string. */
  predicate HasCredential(entries: map<string, string>, name: string)
  {
    name in entries && entries[name] != ""
  }

  class ConfigStore {
    /** The configuration dictionary, credential name to secret. */
    var entries: map<string, string>

    /** The store as loaded from the configuration file (or empty). */
    constructor (loaded: map<string, string>)
      ensures entries == loaded
    {
      entries := loaded;
    }

    /**
     * `get_api_key(chain, config)`. `supplied` stands for what the user types
     * at the prompt; it is used only when no non-empty credential is stored.
     */
    method GetApiKey(chain: Chain, supplied: string) returns (key: string)
      modifies this
      ensures EnvKey(chain) in entries && entries[EnvKey(chain)] == key
      ensures HasCredential(old(entries), EnvKey(chain)) ==>
        key == old(entries)[EnvKey(chain)] && entries == old(entries)
      ensures !HasCredential(old(entries), EnvKey(chain)) ==>
        key == supplied && entries == old(entries)[EnvKey(chain) := supplied]
      // A corollary of the two clauses above, stated for callers: no other
      // credential is touched.
      ensures forall name | name != EnvKey(chain) ::
        (name in entries <==> name in old(entries)) &&
        (name in entries ==> entries[name] == old(entries)[name])
    {
      var envVar := EnvKey(chain);
      var apiKey := if envVar in entries then entries[envVar] else "";
      if apiKey == "" {
        apiKey := supplied;
        entries := entries[envVar := apiKey];
      }
      key := apiKey;
    }

    /**
     * The Solana branch of `main` resolves the RPC URL inline, with the same
     * lookup-or-store under `SOLANA_RPC_URL` (only the kind of prompt differs).
     */
    method ResolveRpcUrl(supplied: string) returns (rpcUrl: string)
      modifies this
      ensures "SOLANA_RPC_URL" in entries && entries["SOLANA_RPC_URL"] == rpcUrl
      ensures HasCredential(old(entries), "SOLANA_RPC_URL") ==>
        rpcUrl == old(entries)["SOLANA_RPC_URL"] && entries == old(entries)
      ensures !HasCredential(old(entries), "SOLANA_RPC_URL") ==>
        rpcUrl == supplied && entries == old(entries)["SOLANA_RPC_URL" := supplied]
    {
      rpcUrl := GetApiKey(Solana, supplied);
    }
  }

  /**
   * Once a chain's credential has been resolved to a non-empty value, a
   * second resolution returns the same value, never prompts, and leaves the
   * store as it is, whatever the second prompt would have supplied.
   */
  method ResolveTwice(store: ConfigStore, chain: Chain, first: string, second: string)
    returns (k1: string, k2: string)
    modifies store
    ensures k1 != "" ==> k2 == k1 && store.entries == old(store.entries)[EnvKey(chain) := k1]
    ensures HasCredential(old(store.entries), EnvKey(chain)) ==> store.entries == old(store.entries)
  {
    k1 := store.GetApiKey(chain, first);
    ghost var afterFirst := store.entries;
    k2 := store.GetApiKey(chain, second);
    assert k1 != "" ==> store.entries == afterFirst;
  }

  /**
   * Resolving the credentials of two different chains: the second never
   * disturbs the first, because distinct chains have distinct credential names.
   */
  method ResolveTwoChains(store: ConfigStore, a: Chain, b: Chain, forA: string, forB: string)
    returns (ka: string, kb: string)
    requires a != b
    modifies store
    ensures EnvKey(a) in store.entries && store.entries[EnvKey(a)] == ka
    ensures EnvKey(b) in store.entries && store.entries[EnvKey(b)] == kb
  {
    ka := store.GetApiKey(a, forA);
    kb := store.GetApiKey(b, forB);
    EnvKeyInjective(a, b);
  }
}
