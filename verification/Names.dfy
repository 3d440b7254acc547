/** Names of the resources derived from an AuthPolicy's name. */
module Names {

  const ENVOY_FILTER_SUFFIX := "-login"
  const ENVOY_SECRET_SUFFIX := "-envoy-secret"
  const DENY_SUFFIX := "-deny-auth-rules"
  const IGNORE_SUFFIX := "-ignore-auth"
  const REQUIRE_SUFFIX := "-require-auth"

  function EnvoyFilter(base: string): string { base + ENVOY_FILTER_SUFFIX }
  function EnvoySecret(base: string): string { base + ENVOY_SECRET_SUFFIX }
  function DenyPolicy(base: string): string { base + DENY_SUFFIX }
  function IgnorePolicy(base: string): string { base + IGNORE_SUFFIX }
  function RequirePolicy(base: string): string { base + REQUIRE_SUFFIX }

  lemma FromTheEnd(base: string, suffix: string, k: nat)
    requires 1 <= k <= |suffix|
    ensures var s := base + suffix; s[|s| - k] == suffix[|suffix| - k]
  {}

  /** The three policy names never collide, for any base names. */
  lemma PolicyNamesNeverCollide(a: string, b: string)
    ensures DenyPolicy(a) != IgnorePolicy(b)
    ensures DenyPolicy(a) != RequirePolicy(b)
    ensures IgnorePolicy(a) != RequirePolicy(b)
  {
    FromTheEnd(a, DENY_SUFFIX, 1);
    FromTheEnd(b, IGNORE_SUFFIX, 1);
    FromTheEnd(b, REQUIRE_SUFFIX, 1);
    FromTheEnd(a, IGNORE_SUFFIX, 8);
    FromTheEnd(b, REQUIRE_SUFFIX, 8);
    assert IGNORE_SUFFIX[|IGNORE_SUFFIX| - 8] == 'o' && REQUIRE_SUFFIX[|REQUIRE_SUFFIX| - 8] == 'i';
  }
}
