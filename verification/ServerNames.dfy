/** Settings::nextAvailableServerName: the first free "Server N". */
module ServerNames {
  import opened Ipv4

  /** `word` is the translated word "Server". */
  function Name(word: string, i: nat): string { word + " " + ToDecimal(i) }

  lemma NameInjective(word: string, i: nat, j: nat)
    requires Name(word, i) == Name(word, j)
    ensures i == j
  {
    assert Name(word, i)[|word| + 1..] == ToDecimal(i) && Name(word, j)[|word| + 1..] == ToDecimal(j);
    ToDecimalInjective(i, j);
  }

  /** Pigeonhole: n taken names need at least n servers. */
  lemma {:induction false} TakenNamesBound(word: string, servers: seq<string>, n: nat)
    requires forall i :: 1 <= i <= n ==> Name(word, i) in servers
    ensures n <= |servers|
    decreases n
  {
    if n > 0 {
      var last := Name(word, n);
      var at :| 0 <= at < |servers| && servers[at] == last;
      var others := servers[..at] + servers[at + 1..];
      forall i | 1 <= i <= n - 1 ensures Name(word, i) in others {
        var k :| 0 <= k < |servers| && servers[k] == Name(word, i);
        if k == at { NameInjective(word, i, n); }
        assert others[if k < at then k else k - 1] == Name(word, i);
      }
      TakenNamesBound(word, others, n - 1);
    }
  }

  /** The least positive number whose name is free, found within |servers| + 1 rounds. */
  method NextAvailableServerName(word: string, servers: seq<string>) returns (name: string, i: nat)
    ensures name == Name(word, i) && 1 <= i <= |servers| + 1
    ensures name !in servers && forall j :: 1 <= j < i ==> Name(word, j) in servers
  {
    i := 0;
    var nameExist := true;
    while nameExist
      invariant nameExist ==> forall j :: 1 <= j <= i ==> Name(word, j) in servers
      invariant !nameExist ==> i >= 1 && Name(word, i) !in servers && forall j :: 1 <= j < i ==> Name(word, j) in servers
      invariant i <= |servers| + 1
      decreases |servers| + 1 - i, nameExist
    {
      TakenNamesBound(word, servers, i);
      i := i + 1;
      nameExist := false;
      for k := 0 to |servers|
        invariant !nameExist && forall m :: 0 <= m < k ==> servers[m] != Name(word, i)
      {
        if servers[k] == word + " " + ToDecimal(i) {
          nameExist := true;
          break;
        }
      }
    }
    name := Name(word, i);
  }
}
