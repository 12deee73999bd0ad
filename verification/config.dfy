/** The parsed `.teller.yml` configuration (pkg/config/config.go): a map
    from provider name to provider, each provider a kind and an ordered list
    of path maps. A path map's `keys` binds source keys to output keys; in
    the YAML it is a map, here it is the sequence in which a Go `range`
    over that map visits its entries. An empty `keys` means discovery mode. */
module Config {

  const GoogleSecretManager: string := "google_secretmanager"
  const Dotenv: string := "dotenv"

  /** One `fromKey: toKey` entry of a path map's `keys`. */
  datatype Binding = Binding(from: string, to: string)

  datatype PathMap = PathMap(id: string, path: string, keys: seq<Binding>)

  datatype Provider = Provider(kind: string, maps: seq<PathMap>)

  datatype TellerConfig = TellerConfig(providers: map<string, Provider>)

  /** `GetProvidersByKind`: the providers of the given kind, each under its
      configured name and unchanged. */
  function ProvidersByKind(c: TellerConfig, kind: string): (r: map<string, Provider>)
    ensures forall name :: name in r ==> name in c.providers && r[name] == c.providers[name]
    ensures forall name :: name in r ==> r[name].kind == kind
    ensures forall name :: name in c.providers && c.providers[name].kind == kind ==> name in r
  {
    map name | name in c.providers && c.providers[name].kind == kind :: c.providers[name]
  }

  /** A kind that no provider has selects nothing. */
  lemma ProvidersByUnknownKind(c: TellerConfig, kind: string)
    requires forall name :: name in c.providers ==> c.providers[name].kind != kind
    ensures ProvidersByKind(c, kind) == map[]
  {
  }

  /** Different kinds select disjoint sets of providers, and every provider
      is selected by its own kind: the selections partition the config. */
  lemma ProvidersByKindPartition(c: TellerConfig, k1: string, k2: string)
    ensures k1 != k2 ==> ProvidersByKind(c, k1).Keys !! ProvidersByKind(c, k2).Keys
    ensures forall name :: name in c.providers ==> name in ProvidersByKind(c, c.providers[name].kind)
  {
  }

  /** Selecting again by the same kind changes nothing. */
  lemma ProvidersByKindIdempotent(c: TellerConfig, kind: string)
    ensures ProvidersByKind(TellerConfig(ProvidersByKind(c, kind)), kind) == ProvidersByKind(c, kind)
  {
  }
}
