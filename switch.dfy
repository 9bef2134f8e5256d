/** The argument list of `switchWireguardInterfaceTo`: the interface to
    bring up, then the interfaces the switch script brings down, taken from
    the table in key order. */
module Switch {
  import opened Probe

  /** No name occurs twice (the keys of a JavaScript object). */
  predicate Distinct(s: seq<string>) {
    forall i, j :: 0 <= i < j < |s| ==> s[i] != s[j]
  }

  /** `a` is `b` with some elements left out and the rest kept in order. */
  predicate IsSubsequence(a: seq<string>, b: seq<string>)
    decreases |b|
  {
    a == [] || (b != [] && ((a[0] == b[0] && IsSubsequence(a[1..], b[1..])) || IsSubsequence(a, b[1..])))
  }

  /** The first argument: the target's name, or the placeholder "$" that
      the switch script skips when there is no target. */
  function FirstToken(target: Option<string>): string {
    match target
    case Some(t) => t
    case None => "$"
  }

  /** Whether the table entry `name` with flag `flag` is passed on to be
      brought down. With a target, only truthy entries other than the target
      are; with no target, every entry is, whatever its flag. */
  predicate BroughtDown(target: Option<string>, name: string, flag: Flag) {
    match target
    case Some(t) => Truthy(flag) && name != t
    case None => true
  }

  /** The interfaces to bring down, in the order of `keys`. */
  function Downs(target: Option<string>, keys: seq<string>, flags: map<string, Flag>): seq<string>
    decreases |keys|
  {
    if keys == [] then []
    else
      (if BroughtDown(target, keys[0], Lookup(flags, keys[0])) then [keys[0]] else [])
      + Downs(target, keys[1..], flags)
  }

  /** The whole argument list handed to the switch script. */
  function SwitchTokens(target: Option<string>, keys: seq<string>, flags: map<string, Flag>): seq<string> {
    [FirstToken(target)] + Downs(target, keys, flags)
  }

  /** A name is brought down exactly when it is a key that qualifies. */
  lemma {:induction false} DownsMembers(target: Option<string>, keys: seq<string>, flags: map<string, Flag>, x: string)
    ensures x in Downs(target, keys, flags) <==> x in keys && BroughtDown(target, x, Lookup(flags, x))
    decreases |keys|
  {
    if keys != [] {
      DownsMembers(target, keys[1..], flags, x);
      assert keys == [keys[0]] + keys[1..];
    }
  }

  /** The interfaces to bring down keep the table's key order. */
  lemma {:induction false} DownsInOrder(target: Option<string>, keys: seq<string>, flags: map<string, Flag>)
    ensures IsSubsequence(Downs(target, keys, flags), keys)
    decreases |keys|
  {
    if keys != [] {
      DownsInOrder(target, keys[1..], flags);
      var d := Downs(target, keys[1..], flags);
      if BroughtDown(target, keys[0], Lookup(flags, keys[0])) {
        assert Downs(target, keys, flags) == [keys[0]] + d;
        assert ([keys[0]] + d)[1..] == d;
      } else {
        assert Downs(target, keys, flags) == d;
        assert IsSubsequence(d, keys[1..]);
      }
    }
  }

  /** Distinct keys give distinct interfaces to bring down. */
  lemma {:induction false} DownsDistinct(target: Option<string>, keys: seq<string>, flags: map<string, Flag>)
    requires Distinct(keys)
    ensures Distinct(Downs(target, keys, flags))
    decreases |keys|
  {
    if keys != [] {
      var rest := keys[1..];
      assert Distinct(rest) by {
        forall i, j | 0 <= i < j < |rest| ensures rest[i] != rest[j] {
          assert rest[i] == keys[i + 1] && rest[j] == keys[j + 1];
        }
      }
      DownsDistinct(target, rest, flags);
      var d := Downs(target, rest, flags);
      if BroughtDown(target, keys[0], Lookup(flags, keys[0])) {
        assert keys[0] !in rest by {
          forall j | 0 <= j < |rest| ensures rest[j] != keys[0] {
            assert rest[j] == keys[j + 1];
          }
        }
        DownsMembers(target, rest, flags, keys[0]);
        var r := [keys[0]] + d;
        assert Downs(target, keys, flags) == r;
        forall i, j | 0 <= i < j < |r| ensures r[i] != r[j] {
          assert r[j] == d[j - 1];
          if i > 0 { assert r[i] == d[i - 1]; }
        }
      }
    }
  }

  /** With no target, every key is brought down, in key order, whatever its
      flag. */
  lemma {:induction false} DownsAllKeys(keys: seq<string>, flags: map<string, Flag>)
    ensures Downs(None, keys, flags) == keys
    decreases |keys|
  {
    if keys != [] {
      DownsAllKeys(keys[1..], flags);
      assert keys == [keys[0]] + keys[1..];
    }
  }

  /** Switching to a named interface: the name comes first; after it come
      exactly the truthy keys other than the target, in key order and each
      once; the target itself and the keys that are not truthy never do. */
  lemma SwitchToTarget(t: string, keys: seq<string>, flags: map<string, Flag>)
    ensures SwitchTokens(Some(t), keys, flags)[0] == t
    ensures forall x :: x in SwitchTokens(Some(t), keys, flags)[1..] <==>
      x in keys && x in flags && flags[x] == Active && x != t
    ensures t !in SwitchTokens(Some(t), keys, flags)[1..]
    ensures forall x :: x in keys && (x !in flags || flags[x] != Active) ==>
      x !in SwitchTokens(Some(t), keys, flags)[1..]
    ensures IsSubsequence(SwitchTokens(Some(t), keys, flags)[1..], keys)
    ensures Distinct(keys) ==> Distinct(SwitchTokens(Some(t), keys, flags)[1..])
  {
    var tokens := SwitchTokens(Some(t), keys, flags);
    assert tokens[1..] == Downs(Some(t), keys, flags);
    forall x ensures x in tokens[1..] <==> x in keys && x in flags && flags[x] == Active && x != t {
      DownsMembers(Some(t), keys, flags, x);
    }
    DownsInOrder(Some(t), keys, flags);
    if Distinct(keys) {
      DownsDistinct(Some(t), keys, flags);
    }
  }

  /** Switching to no interface: "$" first, then every key of the table in
      key order, active or not. */
  lemma SwitchToNothing(keys: seq<string>, flags: map<string, Flag>)
    ensures SwitchTokens(None, keys, flags) == ["$"] + keys
  {
    DownsAllKeys(keys, flags);
  }
}
