/** `urlEncodeQueryArray` (client/lib/common.ts): each element becomes
    `key=element`, and the pairs are joined with '&'. Nothing is escaped. */
module Common {
  import opened SeqUtil

  /** `Array.prototype.join`. */
  function Join(parts: seq<string>, sep: string): string
    decreases |parts|
  {
    if |parts| == 0 then ""
    else if |parts| == 1 then parts[0]
    else parts[0] + sep + Join(parts[1..], sep)
  }

  /** `data.map((tag) => `${key}=${tag}`)`. */
  function Pairs(key: string, data: seq<string>): (r: seq<string>)
    ensures |r| == |data|
    ensures forall i | 0 <= i < |data| :: r[i] == key + "=" + data[i]
  {
    seq(|data|, i requires 0 <= i < |data| => key + "=" + data[i])
  }

  function UrlEncodeQueryArray(key: string, data: seq<string>): string {
    Join(Pairs(key, data), "&")
  }

  /** `String.prototype.split` with a one-character separator. */
  function Split(s: string, c: char): (r: seq<string>)
    ensures |r| >= 1
    decreases |s|
  {
    if c !in s then [s]
    else
      var i := FirstIndex(s, c);
      [s[..i]] + Split(s[i + 1..], c)
  }

  /** The sum of the pair lengths. */
  function PairsLength(key: string, data: seq<string>): nat
    decreases |data|
  {
    if data == [] then 0 else |key| + 1 + |data[0]| + PairsLength(key, data[1..])
  }

  /** No elements, no text; one element, one pair without any '&'. */
  lemma UrlEncodeSmall(key: string, x: string)
    ensures UrlEncodeQueryArray(key, []) == ""
    ensures UrlEncodeQueryArray(key, [x]) == key + "=" + x
  {
  }

  /** The example of the function's documentation. */
  lemma UrlEncodeExample()
    ensures UrlEncodeQueryArray("tags", ["a", "b", "c"]) == "tags=a&tags=b&tags=c"
  {
    var p := Pairs("tags", ["a", "b", "c"]);
    assert p[0] == "tags=a" && p[1] == "tags=b" && p[2] == "tags=c";
    assert p == ["tags=a", "tags=b", "tags=c"];
    assert p[1..][1..] == ["tags=c"];
    assert p[1..] == ["tags=b", "tags=c"];
  }

  /** The output holds every pair and one separator between neighbours. */
  lemma {:induction false} UrlEncodeLength(key: string, data: seq<string>)
    requires |data| >= 1
    ensures |UrlEncodeQueryArray(key, data)| == PairsLength(key, data) + |data| - 1
    decreases |data|
  {
    if |data| > 1 {
      UrlEncodeLength(key, data[1..]);
      assert Pairs(key, data)[1..] == Pairs(key, data[1..]);
    } else {
      assert data[1..] == [];
    }
  }

  /** Splitting a join on a separator that no part contains gives the parts
      back. */
  lemma {:induction false} SplitJoin(parts: seq<string>, c: char)
    requires |parts| >= 1
    requires forall i | 0 <= i < |parts| :: c !in parts[i]
    ensures Split(Join(parts, [c]), c) == parts
    decreases |parts|
  {
    if |parts| > 1 {
      SplitAtFirst(parts[0], c, Join(parts[1..], [c]));
      SplitJoin(parts[1..], c);
      assert parts == [parts[0]] + parts[1..];
    }
  }

  /** A piece free of the separator, then the separator: the split yields
      that piece first and then splits the rest. */
  lemma SplitAtFirst(a: string, c: char, rest: string)
    requires c !in a
    ensures Split(a + [c] + rest, c) == [a] + Split(rest, c)
  {
    var s := a + [c] + rest;
    assert s[|a|] == c;
    forall k | 0 <= k < |a| ensures s[k] != c {
      assert s[k] == a[k];
    }
    FirstIndexIs(s, c, |a|);
    assert s[..|a|] == a;
    assert s[|a| + 1..] == rest;
  }

  /** With no '&' in the key or any element, splitting the output on '&'
      recovers `key=element` for each element, in order. */
  lemma UrlEncodeSplits(key: string, data: seq<string>)
    requires |data| >= 1
    requires '&' !in key && forall i | 0 <= i < |data| :: '&' !in data[i]
    ensures Split(UrlEncodeQueryArray(key, data), '&') == Pairs(key, data)
  {
    var p := Pairs(key, data);
    forall i | 0 <= i < |p| ensures '&' !in p[i] {
      assert p[i] == key + "=" + data[i];
    }
    SplitJoin(p, '&');
  }
}
