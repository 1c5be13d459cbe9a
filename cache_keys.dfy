/**
 * The deduplication cache's key and lookup (main.go, getCacheKey and getFromCache):
 * the key is the layer names in order joined with "-", and the cache is a map from
 * key to composite image.
 */
module CacheKeys {
  import opened Wrappers
  import opened Images

  const Separator: string := "-"

  /** The total length of the parts. */
  function TotalLength(parts: seq<string>): nat
  {
    if |parts| == 0 then 0 else |parts[0]| + TotalLength(parts[1..])
  }

  /** strings.Join: every part once, one separator between neighbours. */
  function Join(parts: seq<string>, sep: string): (r: string)
    ensures |parts| == 0 ==> r == ""
    ensures |parts| > 0 ==> |r| == TotalLength(parts) + (|parts| - 1) * |sep|
  {
    if |parts| == 0 then ""
    else if |parts| == 1 then parts[0]
    else parts[0] + sep + Join(parts[1..], sep)
  }

  function Names(layers: seq<Layer>): (names: seq<string>)
  {
    seq(|layers|, k requires 0 <= k < |layers| => layers[k].name)
  }

  /** The key getCacheKey computes. */
  function CacheKey(layers: seq<Layer>): string
  {
    Join(Names(layers), Separator)
  }

  /** getCacheKey: fills a slice of names in a loop, then joins it. */
  method GetCacheKey(layers: seq<Layer>) returns (key: string)
    ensures key == CacheKey(layers)
  {
    var layerNames := new string[|layers|];
    for i := 0 to |layers|
      invariant forall k :: 0 <= k < i ==> layerNames[k] == layers[k].name
    {
      layerNames[i] := layers[i].name;
    }
    assert layerNames[..] == Names(layers);
    key := Join(layerNames[..], Separator);
  }

  /** getFromCache: found exactly when the key is present, and then the stored image. */
  function GetFromCache(cache: map<string, Image>, layers: seq<Layer>): (found: Option<Image>)
    ensures found.Some? <==> CacheKey(layers) in cache
    ensures found.Some? ==> found.value == cache[CacheKey(layers)]
  {
    var key := CacheKey(layers);
    if key in cache then Some(cache[key]) else None
  }

  /** Selections with the same ordered names share a key, hence a cache entry. */
  lemma SameNamesSameEntry(cache: map<string, Image>, a: seq<Layer>, b: seq<Layer>)
    requires Names(a) == Names(b)
    ensures CacheKey(a) == CacheKey(b)
    ensures GetFromCache(cache, a) == GetFromCache(cache, b)
  {
  }

  /** A single layer's key is its own name. */
  lemma SingleLayerKey(layer: Layer)
    ensures CacheKey([layer]) == layer.name
  {
  }

  /** A lookup after storing under the key of layers sees the stored image for that key only. */
  lemma LookupAfterStore(cache: map<string, Image>, layers: seq<Layer>, img: Image, probe: seq<Layer>)
    ensures GetFromCache(cache[CacheKey(layers) := img], probe)
         == if CacheKey(probe) == CacheKey(layers) then Some(img) else GetFromCache(cache, probe)
  {
  }

  /** Splitting at the first occurrence of c is unique. */
  lemma SplitAtFirst(x: string, y: string, tx: string, ty: string, c: char)
    requires c !in x && c !in y
    requires x + [c] + tx == y + [c] + ty
    ensures x == y && tx == ty
  {
    var s := x + [c] + tx;
    assert forall k :: 0 <= k < |x| ==> s[k] == x[k];
    assert forall k :: 0 <= k < |y| ==> s[k] == y[k];
    assert s[|x|] == c && s[|y|] == c;
    assert |x| == |y|;
    assert x == s[..|x|] && y == s[..|y|];
    assert tx == s[|x| + 1..] && ty == s[|y| + 1..];
  }

  /**
   * Joining is injective on non-empty sequences of parts that do not contain
   * the (one-character) separator.
   */
  lemma {:induction false} JoinInjective(a: seq<string>, b: seq<string>, c: char)
    requires |a| > 0 && |b| > 0
    requires forall k :: 0 <= k < |a| ==> c !in a[k]
    requires forall k :: 0 <= k < |b| ==> c !in b[k]
    requires Join(a, [c]) == Join(b, [c])
    ensures a == b
  {
    if |a| > 1 && |b| > 1 {
      SplitAtFirst(a[0], b[0], Join(a[1..], [c]), Join(b[1..], [c]), c);
      JoinInjective(a[1..], b[1..], c);
      assert a == [a[0]] + a[1..] && b == [b[0]] + b[1..];
    }
  }

  /**
   * The key identifies the ordered name sequence when there is at least one layer
   * and no name contains the separator.
   */
  lemma CacheKeyInjective(a: seq<Layer>, b: seq<Layer>)
    requires |a| > 0 && |b| > 0
    requires forall k :: 0 <= k < |a| ==> '-' !in a[k].name
    requires forall k :: 0 <= k < |b| ==> '-' !in b[k].name
    requires CacheKey(a) == CacheKey(b)
    ensures Names(a) == Names(b)
  {
    JoinInjective(Names(a), Names(b), '-');
  }

  /**
   * Without those conditions the key is not injective: names containing "-" collide,
   * and so do an empty selection and a single layer with an empty name.
   */
  lemma CacheKeyCollisions(i1: Image, i2: Image, i3: Image, i4: Image)
    ensures CacheKey([Layer("a-b", i1), Layer("c", i2)]) == "a-b-c"
    ensures CacheKey([Layer("a", i3), Layer("b-c", i4)]) == "a-b-c"
    ensures Names([Layer("a-b", i1), Layer("c", i2)]) != Names([Layer("a", i3), Layer("b-c", i4)])
    ensures CacheKey([]) == CacheKey([Layer("", i1)]) == ""
  {
    assert Names([Layer("a-b", i1), Layer("c", i2)]) == ["a-b", "c"];
    assert Names([Layer("a", i3), Layer("b-c", i4)]) == ["a", "b-c"];
    assert Names([Layer("", i1)]) == [""];
    assert ["a-b", "c"][1..] == ["c"];
    assert ["a", "b-c"][1..] == ["b-c"];
    assert ["a-b", "c"][0] != ["a", "b-c"][0];
  }
}
