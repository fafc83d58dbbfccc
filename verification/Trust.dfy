/** Trust tiers (`crates/server/src/store.rs`). */
module Trust {
  datatype Tier = Verified | Built | Quarantined | Substituted

  /** Whether the frontend may assert a path of this tier to anyone else. */
  predicate Vouchable(tier: Tier) {
    tier.Verified? || tier.Built?
  }
}
