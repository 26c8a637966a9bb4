/** What the DNS test tool asks: `getMsg` for the seeds that the requests are counted with. */
module QueryStream {
  import opened Arithmetic
  import opened TokenPool

  /** `strconv.FormatInt` of a count. */
  function Decimal(n: nat): (s: string)
    ensures s != [] && forall i | 0 <= i < |s| :: '0' <= s[i] <= '9'
  {
    (if n < 10 then "" else Decimal(n / 10)) + ["0123456789"[n % 10]]
  }

  function Value(s: string): int {
    if s == [] then 0 else 10 * Value(s[..|s| - 1]) + (s[|s| - 1] as int - '0' as int)
  }

  lemma {:induction false} DecimalValue(n: nat)
    ensures Value(Decimal(n)) == n
  {
    var s := Decimal(n);
    assert "0123456789"[n % 10] as int - '0' as int == n % 10;
    if n >= 10 {
      DecimalValue(n / 10);
      assert s[..|s| - 1] == Decimal(n / 10);
    } else {
      assert s[..|s| - 1] == "";
    }
  }

  /** The domains are used in turn; an uncached query has its seed before the domain. */
  function QueryName(seed: nat, domains: seq<string>, uncached: bool): string
    requires domains != []
  {
    var domain := domains[seed % |domains|];
    if uncached then Decimal(seed) + "." + domain else domain
  }

  /** Up to the first dot. */
  function FirstLabel(name: string): string {
    if name == [] || name[0] == '.' then "" else [name[0]] + FirstLabel(name[1..])
  }

  lemma {:induction false} FirstLabelOf(digits: string, domain: string)
    requires forall i | 0 <= i < |digits| :: digits[i] != '.'
    ensures FirstLabel(digits + "." + domain) == digits
  {
    var name := digits + "." + domain;
    if digits != "" {
      assert name[1..] == digits[1..] + "." + domain;
      FirstLabelOf(digits[1..], domain);
    }
  }

  /** No two uncached queries have the same name, whatever the domains. */
  lemma UncachedDistinct(a: nat, b: nat, domains: seq<string>)
    requires domains != [] && QueryName(a, domains, true) == QueryName(b, domains, true)
    ensures a == b
  {
    FirstLabelOf(Decimal(a), domains[a % |domains|]);
    FirstLabelOf(Decimal(b), domains[b % |domains|]);
    DecimalValue(a);
    DecimalValue(b);
  }

  /** How many of the seeds use domain i. */
  function Uses(seeds: seq<nat>, d: nat, i: nat): nat
    requires d > 0
  {
    if seeds == [] then 0
    else Uses(seeds[..|seeds| - 1], d, i) + if seeds[|seeds| - 1] % d == i then 1 else 0
  }

  lemma {:induction false} SeedsUseInTurn(seeds: seq<nat>, d: nat, i: nat)
    requires d > 0 && i < d && forall k | 0 <= k < |seeds| :: seeds[k] == k + 1
    ensures Uses(seeds, d, i) == |seeds| / d + if 1 <= i <= |seeds| % d then 1 else 0
  {
    if seeds == [] {
      ModOf(0, d, 0, 0);
    } else {
      var before := seeds[..|seeds| - 1];
      SeedsUseInTurn(before, d, i);
      NextMod(|before|, d);
    }
  }

  // The same of the names themselves

  predicate Distinct(domains: seq<string>) {
    forall i, j | 0 <= i < j < |domains| :: domains[i] != domains[j]
  }

  /** Behind the first dot. */
  function AfterDot(name: string): string {
    if name == [] then "" else if name[0] == '.' then name[1..] else AfterDot(name[1..])
  }

  lemma {:induction false} AfterDotOf(digits: string, domain: string)
    requires forall i | 0 <= i < |digits| :: digits[i] != '.'
    ensures AfterDot(digits + "." + domain) == domain
  {
    var name := digits + "." + domain;
    if digits == "" {
      assert name == "." + domain && name[1..] == domain;
    } else {
      assert name[1..] == digits[1..] + "." + domain;
      AfterDotOf(digits[1..], domain);
    }
  }

  /** How many of the queries ask in this domain: of an uncached one this is told by what follows its first dot. */
  function Asks(seeds: seq<nat>, domains: seq<string>, uncached: bool, domain: string): nat
    requires domains != []
  {
    if seeds == [] then 0
    else
      var name := QueryName(seeds[|seeds| - 1], domains, uncached);
      Asks(seeds[..|seeds| - 1], domains, uncached, domain)
      + if (if uncached then AfterDot(name) else name) == domain then 1 else 0
  }

  lemma {:induction false} AsksAreUses(seeds: seq<nat>, domains: seq<string>, uncached: bool, i: nat)
    requires Distinct(domains) && i < |domains|
    ensures Asks(seeds, domains, uncached, domains[i]) == Uses(seeds, |domains|, i)
  {
    if seeds != [] {
      var seed := seeds[|seeds| - 1];
      AsksAreUses(seeds[..|seeds| - 1], domains, uncached, i);
      AfterDotOf(Decimal(seed), domains[seed % |domains|]);
      hide Decimal, AfterDot;
      assert domains[seed % |domains|] == domains[i] <==> seed % |domains| == i;
    }
  }

  /** After any interleaving of the workers, n requests have asked n / d times in each of d different domains, and in
      those number 1 to n % d once more, counted by their names, cached or not; and all uncached names are
      different. */
  lemma RequestsInTurn(clients: nat, workers: nat, steps: seq<(nat, Action)>, domains: seq<string>)
    requires domains != [] && Run(clients, workers, steps).Some?
    ensures var seeds, d := Run(clients, workers, steps).value.seeds, |domains|;
            && (Distinct(domains) ==> forall i: nat, uncached: bool | i < d ::
                  Asks(seeds, domains, uncached, domains[i]) == |seeds| / d + if 1 <= i <= |seeds| % d then 1 else 0)
            && (forall i: nat | i < d ::
                  Uses(seeds, d, i) == |seeds| / d + if 1 <= i <= |seeds| % d then 1 else 0)
            && (forall j, k | 0 <= j < k < |seeds| ::
                  QueryName(seeds[j], domains, true) != QueryName(seeds[k], domains, true))
  {
    hide QueryName, Uses, Run, Asks, Distinct;
    RunKept(clients, workers, steps);
    var seeds := Run(clients, workers, steps).value.seeds;
    forall i: nat | i < |domains|
      ensures Uses(seeds, |domains|, i) == |seeds| / |domains| + if 1 <= i <= |seeds| % |domains| then 1 else 0
    {
      SeedsUseInTurn(seeds, |domains|, i);
    }
    if Distinct(domains) {
      forall i: nat, uncached: bool | i < |domains|
        ensures Asks(seeds, domains, uncached, domains[i])
             == |seeds| / |domains| + if 1 <= i <= |seeds| % |domains| then 1 else 0
      {
        AsksAreUses(seeds, domains, uncached, i);
      }
    }
    forall j, k | 0 <= j < k < |seeds|
      ensures QueryName(seeds[j], domains, true) != QueryName(seeds[k], domains, true)
    {
      if QueryName(seeds[j], domains, true) == QueryName(seeds[k], domains, true) {
        UncachedDistinct(seeds[j], seeds[k], domains);
      }
    }
  }
}
