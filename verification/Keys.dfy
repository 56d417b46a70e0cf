/** The strings the tools build to use several fields as one Map or Set key, and why each names its
    fields unambiguously although a network name such as "ethereum-mainnet" contains a dash. */
module Keys {
  predicate Lacks(separator: char, s: string) {
    forall i | 0 <= i < |s| :: s[i] != separator
  }

  predicate IsAddress(s: string) {
    Lacks(':', s) && Lacks('-', s) && Lacks('|', s)
  }

  /** A contract or account address: never contains one of the separators. */
  type Address = s: string | IsAddress(s) witness ""

  /** A network name; it may contain any character. */
  type Network = string

  function Join(left: string, separator: char, right: string): string {
    left + [separator] + right
  }

  /** Only the last part has to lack the separator: a joined key splits at its last separator. */
  lemma JoinInjective(left: string, right: string, left': string, right': string, separator: char)
    requires Lacks(separator, right) && Lacks(separator, right')
    requires Join(left, separator, right) == Join(left', separator, right')
    ensures left == left' && right == right'
  {
    var key, key' := Join(left, separator, right), Join(left', separator, right');
    assert key[|left|] == key'[|left'|] == separator;
    assert |right| == |key| - |left| - 1 && |right'| == |key| - |left'| - 1;
    assert forall i | 0 <= i < |right| :: right[i] == key[|left| + 1 + i];
    assert forall i | 0 <= i < |right'| :: right'[i] == key'[|left'| + 1 + i];
    if |left| < |left'| { assert false; }
    if |left'| < |left| { assert false; }
    assert left == key[..|left|] && right == key[|left| + 1..];
    assert left' == key'[..|left'|] && right' == key'[|left'| + 1..];
  }

  /** `network:dao:who`, the key of the newest-grant index. */
  function GrantKey(network: Network, dao: Address, who: Address): string {
    Join(Join(network, ':', dao), ':', who)
  }

  /** `network:dao`, the key of the controller DAOs. */
  function DaoKey(network: Network, dao: Address): string {
    Join(network, ':', dao)
  }

  /** `network:address`, the key of the plugins with a setting. */
  function PluginKey(network: Network, address: Address): string {
    Join(network, ':', address)
  }

  /** `network-address`, the key of the non-Safe plugins and of the DAOs to reconcile. */
  function RefKey(network: Network, address: Address): string {
    Join(network, '-', address)
  }

  /** `network|dao|plugin`, the key of the slug index. */
  function SlugKey(network: Network, dao: Address, plugin: Address): string {
    Join(Join(network, '|', dao), '|', plugin)
  }

  lemma GrantKeyInjective(n: Network, d: Address, w: Address, n': Network, d': Address, w': Address)
    requires GrantKey(n, d, w) == GrantKey(n', d', w')
    ensures n == n' && d == d' && w == w'
  {
    JoinInjective(Join(n, ':', d), w, Join(n', ':', d'), w', ':');
    JoinInjective(n, d, n', d', ':');
  }

  lemma SlugKeyInjective(n: Network, d: Address, p: Address, n': Network, d': Address, p': Address)
    requires SlugKey(n, d, p) == SlugKey(n', d', p')
    ensures n == n' && d == d' && p == p'
  {
    JoinInjective(Join(n, '|', d), p, Join(n', '|', d'), p', '|');
    JoinInjective(n, d, n', d', '|');
  }
}
