/** The growable argument vector the command-line extractors edit in place. */
module TokenVector {
  import opened Wrappers

  /** The tokens other than `token`, in order. */
  function Without(s: seq<string>, token: string): (r: seq<string>)
    ensures token !in r
  {
    if s == [] then []
    else (if s[0] == token then [] else [s[0]]) + Without(s[1..], token)
  }

  lemma {:induction false} WithoutConcat(a: seq<string>, b: seq<string>, token: string)
    ensures Without(a + b, token) == Without(a, token) + Without(b, token)
  {
    var s := a + b;
    if a == [] {
      assert s == b;
    } else {
      assert s[0] == a[0] && s[1..] == a[1..] + b;
      WithoutConcat(a[1..], b, token);
      var head := if a[0] == token then [] else [a[0]];
      assert head + (Without(a[1..], token) + Without(b, token)) == head + Without(a[1..], token) + Without(b, token);
    }
  }

  lemma WithoutStep(s: seq<string>, i: nat, token: string)
    requires i < |s|
    ensures Without(s[..i + 1], token) == Without(s[..i], token) + if s[i] == token then [] else [s[i]]
  {
    assert s[..i + 1] == s[..i] + [s[i]];
    WithoutConcat(s[..i], [s[i]], token);
  }

  lemma {:induction false} WithoutAbsent(s: seq<string>, token: string)
    requires token !in s
    ensures Without(s, token) == s
  {
    if s != [] { WithoutAbsent(s[1..], token); }
  }

  /** The positions of `token`, in increasing order: one for each occurrence, the first first. */
  function Positions(s: seq<string>, token: string): (p: seq<nat>)
    ensures |p| == multiset(s)[token]
    ensures p == [] ==> token !in s
    ensures p != [] ==> p[0] < |s| && s[p[0]] == token && token !in s[..p[0]]
  {
    if s == [] then []
    else
      var n := |s| - 1;
      var init := Positions(s[..n], token);
      assert s == s[..n] + [s[n]];
      if s[n] == token then init + [n] else init
  }

  class Tokens {
    var data: array<string>
    var len: nat

    ghost predicate Valid()
      reads this
    {
      len <= data.Length
    }

    function View(): (s: seq<string>)
      requires Valid()
      reads this, data
      ensures |s| == len
    {
      data[..len]
    }

    constructor (tokens: seq<string>)
      ensures Valid() && fresh(data) && View() == tokens
    {
      data := new string[|tokens|](i requires 0 <= i < |tokens| => tokens[i]);
      len := |tokens|;
      new;
      assert data[..len] == tokens;
    }

    /** `Vec::remove`: everything after the position moves one place forward. */
    method Remove(index: nat) returns (value: string)
      requires Valid() && index < len
      modifies this`len, data
      ensures Valid() && value == old(View()[index])
      ensures View() == old(View()[..index] + View()[index + 1..])
    {
      value := data[index];
      ghost var was := View();
      var i := index;
      while i + 1 < len
        invariant index <= i < len == |was| && data == old(data) && Valid()
        invariant forall k :: 0 <= k < index ==> data[k] == was[k]
        invariant forall k :: index <= k < i ==> data[k] == was[k + 1]
        invariant forall k :: i < k < len ==> data[k] == was[k]
      {
        data[i] := data[i + 1];
        i := i + 1;
      }
      len := len - 1;
    }

    /** Removes the value after position `p`, then the flag before it. */
    method RemovePair(p: nat) returns (value: string)
      requires Valid() && p + 1 < len
      modifies this`len, data
      ensures Valid() && len == old(len) - 2
      ensures value == old(View())[p + 1]
      ensures View() == old(View())[..p] + old(View())[p + 2..]
    {
      value := Remove(p + 1);
      var dropped := Remove(p);
    }

    /** Removes the flag at position `p`, then the value that has moved there. */
    method RemoveTwice(p: nat) returns (value: string)
      requires Valid() && p + 1 < len
      modifies this`len, data
      ensures Valid() && len == old(len) - 2
      ensures value == old(View())[p + 1]
      ensures View() == old(View())[..p] + old(View())[p + 2..]
    {
      var dropped := Remove(p);
      value := Remove(p);
    }

    /** `Vec::retain` with "is not this token": one pass that closes the gaps. */
    method RetainOthers(token: string)
      requires Valid()
      modifies this`len, data
      ensures Valid() && View() == old(Without(View(), token))
    {
      ghost var was := View();
      var read, write := 0, 0;
      while read < len
        invariant 0 <= write <= read <= len == |was| && data == old(data) && Valid()
        invariant data[..write] == Without(was[..read], token)
        invariant forall k :: read <= k < len ==> data[k] == was[k]
      {
        WithoutStep(was, read, token);
        if data[read] != token {
          data[write] := data[read];
          write := write + 1;
        }
        read := read + 1;
      }
      assert was[..read] == was;
      len := write;
    }

    method Contains(token: string) returns (found: bool)
      requires Valid()
      ensures found <==> token in View()
    {
      var p := Position(token);
      found := p.Some?;
    }

    /** The first position of the token. */
    method Position(token: string) returns (p: Option<nat>)
      requires Valid()
      ensures p == None <==> token !in View()
      ensures p.Some? ==> p.value < len && View()[p.value] == token && token !in View()[..p.value]
    {
      var i := 0;
      while i < len
        invariant 0 <= i <= len
        invariant token !in View()[..i]
      {
        if data[i] == token { return Some(i); }
        i := i + 1;
      }
      return None;
    }

    method AllPositions(token: string) returns (p: seq<nat>)
      requires Valid()
      ensures p == Positions(View(), token)
    {
      p := [];
      var i := 0;
      while i < len
        invariant 0 <= i <= len
        invariant p == Positions(View()[..i], token)
      {
        assert View()[..i + 1][..i] == View()[..i];
        if data[i] == token { p := p + [i]; }
        i := i + 1;
      }
      assert View()[..len] == View();
    }
  }
}
