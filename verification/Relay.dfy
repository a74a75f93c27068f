/** Relays: users whose lookups a listener behind another front-end passes unjudged. */
module Relay {
  import opened Bytes
  import opened Policy

  datatype Relays = Relays(uids: set<U32>) {
    /** An unidentified caller is never a relay. */
    predicate Contains(caller: Caller) {
      caller.uid.Some? && caller.uid.value in uids
    }
  }

  const NOBODY := Relays({})

  /** The parts of the configuration that decide how front-ends stack: a front-end's
      section is absent, or present with its `enable` setting. */
  datatype PolicyConfig = PolicyConfig(nscdUser: Option<Str>, nscdFrontend: Option<bool>,
                                       dnsFrontend: Option<bool>, nssFrontend: Option<bool>) {
    predicate Nscd() { nscdFrontend == Some(true) }
    predicate Dns() { dnsFrontend == Some(true) }
    predicate Nss() { nssFrontend == Some(true) }
  }

  datatype ListenerRelays = ListenerRelays(policySocket: Relays, dns: Relays)

  datatype ResolveError = NoSuchUser(user: Str)

  /** On which listener nscd comes behind a front-end that has judged its lookups: the
      policy socket, the DNS front-end. */
  function Relaying(cfg: PolicyConfig): (bool, bool) {
    (cfg.Nscd(), cfg.Nscd() || cfg.Nss())
  }

  /** `ListenerRelays::for_config`; `uidOf` stands for the passwd lookup. */
  function ForConfig(cfg: PolicyConfig, uidOf: Str -> Option<U32>): Result<ListenerRelays, ResolveError> {
    var (socket, dns) := Relaying(cfg);
    if cfg.nscdUser.Some? && (socket || dns) then
      match uidOf(cfg.nscdUser.value)
      case None => Err(NoSuchUser(cfg.nscdUser.value))
      case Some(uid) =>
        var nscd := Relays({uid});
        Ok(ListenerRelays(if socket then nscd else NOBODY, if dns then nscd else NOBODY))
    else Ok(ListenerRelays(NOBODY, NOBODY))
  }

  /** Who relays where: nscd's user alone, and only behind a front-end that has
      already judged what it passes on. */
  lemma RelaysIff(cfg: PolicyConfig, uidOf: Str -> Option<U32>, caller: Caller)
    ensures var r := ForConfig(cfg, uidOf);
      && (r.Err? <==> cfg.nscdUser.Some? && (cfg.Nscd() || cfg.Nss()) && uidOf(cfg.nscdUser.value).None?)
      && (r.Ok? ==>
            var isNscd := cfg.nscdUser.Some? && caller.uid.Some? && uidOf(cfg.nscdUser.value) == caller.uid;
            && (r.value.policySocket.Contains(caller) <==> cfg.Nscd() && isNscd)
            && (r.value.dns.Contains(caller) <==> (cfg.Nscd() || cfg.Nss()) && isNscd))
  {
  }
}
