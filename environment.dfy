/**
 * Directory discovery (main.go, getDirNames): every entry of os.Environ() whose
 * text starts with "DIR" names a layer directory; its value is looked up by the
 * key before the first "=".
 *
 * The process environment is modelled as the raw sequence of entries Go's
 * runtime starts from. os.Getenv answers with the first entry carrying a key, and
 * os.Environ() reports the raw entries minus empty ones and minus every later
 * entry whose key already appeared.
 */
module Environment {

  import opened Wrappers

  const DirPrefix: string := "DIR"

  predicate HasPrefix(s: string, prefix: string)
  {
    |prefix| <= |s| && s[..|prefix|] == prefix
  }

  function FirstIndex(s: string, c: char): (k: nat)
    requires c in s
    ensures k < |s| && s[k] == c && c !in s[..k]
  {
    if s[0] == c then 0 else
      assert c in s[1..] by { assert s == [s[0]] + s[1..]; }
      1 + FirstIndex(s[1..], c)
  }

  /** strings.SplitN(entry, "=", 2)[0]: the text before the first "=", or all of it. */
  function EnvKey(entry: string): (key: string)
    ensures '=' !in key
    ensures '=' !in entry ==> key == entry
  {
    if '=' in entry then entry[..FirstIndex(entry, '=')] else entry
  }

  /** The text after the first "=" ("" when there is none). */
  function EnvValue(entry: string): string
  {
    if '=' in entry then entry[FirstIndex(entry, '=') + 1..] else ""
  }

  /** An entry with "=" is its key, the "=", then its value. */
  lemma EntrySplits(entry: string)
    requires '=' in entry
    ensures entry == EnvKey(entry) + "=" + EnvValue(entry)
  {
    var k := FirstIndex(entry, '=');
    assert entry == entry[..k] + [entry[k]] + entry[k + 1..];
  }

  /** The inverse of EntrySplits: a key without "=" joined to a value splits back. */
  lemma EntryJoin(key: string, value: string)
    requires '=' !in key
    ensures EnvKey(key + "=" + value) == key && EnvValue(key + "=" + value) == value
  {
    var entry := key + "=" + value;
    assert entry[|key|] == '=';
    assert entry[..|key|] == key;
    assert entry[|key| + 1..] == value;
  }

  /**
   * The lookup table behind os.Getenv: the value of the first entry that has an
   * "=" and the given key (a later entry with the same key is shadowed).
   */
  function Lookup(env: seq<string>, key: string): (r: Option<string>)
    ensures r.Some? <==> exists j :: 0 <= j < |env| && '=' in env[j] && EnvKey(env[j]) == key
  {
    if |env| == 0 then None
    else
      var p, last := env[..|env| - 1], env[|env| - 1];
      assert forall j :: 0 <= j < |p| ==> p[j] == env[j];
      match Lookup(p, key)
      case Some(v) => Some(v)
      case None => if '=' in last && EnvKey(last) == key then Some(EnvValue(last)) else None
  }

  /** os.Getenv: "" for the empty key, else the looked-up value, or "" when the key is not set. */
  function Getenv(env: seq<string>, key: string): string
  {
    if key == "" then ""
    else
      match Lookup(env, key)
      case Some(v) => v
      case None => ""
  }

  /** The key of an entry starting with "DIR" is never empty. */
  lemma DirKeyNonEmpty(entry: string)
    requires HasPrefix(entry, DirPrefix)
    ensures EnvKey(entry) != ""
  {
    assert entry[0] == DirPrefix[0];
    if '=' in entry {
      assert FirstIndex(entry, '=') != 0;
    }
  }

  /** The lookup finds the first entry with the key, whatever follows it. */
  lemma {:induction false} LookupFirst(env: seq<string>, k: nat)
    requires k < |env| && '=' in env[k]
    requires forall j :: 0 <= j < k ==> !('=' in env[j] && EnvKey(env[j]) == EnvKey(env[k]))
    ensures Lookup(env, EnvKey(env[k])) == Some(EnvValue(env[k]))
  {
    var p := env[..|env| - 1];
    if k == |env| - 1 {
      assert forall j :: 0 <= j < |p| ==> p[j] == env[j];
      assert Lookup(p, EnvKey(env[k])).None?;
    } else {
      assert p[k] == env[k];
      assert forall j :: 0 <= j < k ==> p[j] == env[j];
      LookupFirst(p, k);
    }
  }

  /**
   * os.Environ(): the entries in order, without the empty ones and without those
   * whose key an earlier entry already set.
   */
  function Environ(env: seq<string>): (r: seq<string>)
    ensures |r| <= |env|
    ensures forall e :: e in r ==> e in env && e != ""
  {
    if |env| == 0 then []
    else
      var p, last := env[..|env| - 1], env[|env| - 1];
      assert env == p + [last];
      Environ(p) + (if Shadowed(p, last) then [] else [last])
  }

  /** An entry os.Environ() leaves out, given the entries before it. */
  predicate Shadowed(before: seq<string>, entry: string)
  {
    entry == "" || ('=' in entry && Lookup(before, EnvKey(entry)).Some?)
  }

  /** os.Environ() reports every entry that is neither empty nor shadowed by an earlier key. */
  lemma {:induction false} EnvironComplete(env: seq<string>)
    ensures forall i :: 0 <= i < |env| && !Shadowed(env[..i], env[i]) ==> env[i] in Environ(env)
  {
    if |env| > 0 {
      var n := |env| - 1;
      var p := env[..n];
      EnvironComplete(p);
      var tail := if Shadowed(p, env[n]) then [] else [env[n]];
      assert Environ(env) == Environ(p) + tail;
      forall i | 0 <= i < |env| && !Shadowed(env[..i], env[i])
        ensures env[i] in Environ(env)
      {
        if i < n {
          assert p[..i] == env[..i] && p[i] == env[i];
          assert env[i] in Environ(p);
        } else {
          assert env[..i] == p && tail == [env[i]];
        }
      }
    }
  }

  /**
   * os.Environ() keeps the raw order: what it reports for the first n entries is a
   * prefix of what it reports for all of them.
   */
  lemma {:induction false} EnvironPrefix(env: seq<string>, n: nat)
    requires n <= |env|
    ensures Environ(env[..n]) <= Environ(env)
    decreases |env|
  {
    if n < |env| {
      var p := env[..|env| - 1];
      assert p[..n] == env[..n];
      EnvironPrefix(p, n);
    } else {
      assert env[..n] == env;
    }
  }

  /** Every entry with "=" that os.Environ() reports is the one os.Getenv finds. */
  lemma {:induction false} EnvironValues(env: seq<string>)
    ensures forall e :: e in Environ(env) && '=' in e ==> Lookup(env, EnvKey(e)) == Some(EnvValue(e))
  {
    if |env| > 0 {
      var p, last := env[..|env| - 1], env[|env| - 1];
      EnvironValues(p);
      forall e | e in Environ(env) && '=' in e
        ensures Lookup(env, EnvKey(e)) == Some(EnvValue(e))
      {
        if e in Environ(p) {
          assert Lookup(p, EnvKey(e)) == Some(EnvValue(e));
        } else {
          assert e == last && !Shadowed(p, last);
        }
      }
    }
  }

  /** os.Environ() reports each key at most once. */
  lemma {:induction false} EnvironKeysUnique(env: seq<string>)
    ensures forall i, j :: 0 <= i < j < |Environ(env)| && '=' in Environ(env)[i] && '=' in Environ(env)[j] ==>
              EnvKey(Environ(env)[i]) != EnvKey(Environ(env)[j])
  {
    if |env| > 0 {
      var p, last := env[..|env| - 1], env[|env| - 1];
      var r, q := Environ(env), Environ(p);
      EnvironKeysUnique(p);
      EnvironValues(p);
      assert forall i :: 0 <= i < |q| ==> r[i] == q[i];
      if !Shadowed(p, last) {
        assert r[|q|] == last;
        forall i | 0 <= i < |q| && '=' in q[i] && '=' in last
          ensures EnvKey(q[i]) != EnvKey(last)
        {
          assert q[i] in q;
        }
      }
    }
  }

  /** Dropping the shadowed entries changes no lookup. */
  lemma {:induction false} EnvironSameLookup(env: seq<string>, key: string)
    ensures Lookup(Environ(env), key) == Lookup(env, key)
  {
    if |env| > 0 {
      var p, last := env[..|env| - 1], env[|env| - 1];
      EnvironSameLookup(p, key);
      if Shadowed(p, last) {
        assert Environ(env) == Environ(p);
        assert '=' in last && EnvKey(last) == key ==> Lookup(p, key).Some?;
      } else {
        var q := Environ(p) + [last];
        assert Environ(env) == q && q[..|q| - 1] == Environ(p) && q[|q| - 1] == last;
      }
    }
  }

  /** The entries of env that start with "DIR", in environment order. */
  function DirEntries(env: seq<string>): (r: seq<string>)
    ensures |r| <= |env|
    ensures forall e :: e in r <==> e in env && HasPrefix(e, DirPrefix)
  {
    if |env| == 0 then []
    else
      var last := env[|env| - 1];
      assert env == env[..|env| - 1] + [last];
      DirEntries(env[..|env| - 1]) + (if HasPrefix(last, DirPrefix) then [last] else [])
  }

  /** A single entry is kept exactly when it starts with "DIR". */
  lemma DirEntriesSingleton(e: string)
    ensures DirEntries([e]) == if HasPrefix(e, DirPrefix) then [e] else []
  {
    assert [e][..0] == [];
  }

  /** The filter distributes over concatenation, so it keeps environment order. */
  lemma {:induction false} DirEntriesAppend(a: seq<string>, b: seq<string>)
    ensures DirEntries(a + b) == DirEntries(a) + DirEntries(b)
  {
    if |b| == 0 {
      assert a + b == a;
    } else {
      var b', last := b[..|b| - 1], b[|b| - 1];
      assert (a + b)[..|a + b| - 1] == a + b';
      DirEntriesAppend(a, b');
    }
  }

  /** The filter over one more entry of a sequence. */
  lemma DirEntriesStep(s: seq<string>, i: nat)
    requires i < |s|
    ensures DirEntries(s[..i + 1]) == DirEntries(s[..i]) + (if HasPrefix(s[i], DirPrefix) then [s[i]] else [])
  {
    assert s[..i + 1][..i] == s[..i];
  }

  /** getDirNames: one value per "DIR" entry of os.Environ(), in its order. */
  method GetDirNames(env: seq<string>) returns (dirs: seq<string>)
    ensures |dirs| == |DirEntries(Environ(env))|
    ensures forall j :: 0 <= j < |dirs| ==>
              dirs[j] == Getenv(env, EnvKey(DirEntries(Environ(env))[j]))
  {
    var entries := Environ(env);
    dirs := [];
    ghost var kept: seq<string> := [];
    for i := 0 to |entries|
      invariant kept == DirEntries(entries[..i])
      invariant |dirs| == |kept|
      invariant forall j :: 0 <= j < |dirs| ==> dirs[j] == Getenv(env, EnvKey(kept[j]))
    {
      DirEntriesStep(entries, i);
      var entry := entries[i];
      if HasPrefix(entry, DirPrefix) {
        var key := EnvKey(entry);
        dirs := dirs + [Getenv(env, key)];
        kept := kept + [entry];
      }
    }
    assert entries[..|entries|] == entries;
  }

  /**
   * For each "DIR" entry of os.Environ() that has an "=", getDirNames returns the
   * text after its first "=".
   */
  lemma DirNamesAreValues(env: seq<string>)
    ensures forall j :: 0 <= j < |DirEntries(Environ(env))| && '=' in DirEntries(Environ(env))[j] ==>
              Getenv(env, EnvKey(DirEntries(Environ(env))[j])) == EnvValue(DirEntries(Environ(env))[j])
  {
    EnvironValues(env);
    forall j | 0 <= j < |DirEntries(Environ(env))| && '=' in DirEntries(Environ(env))[j]
      ensures Getenv(env, EnvKey(DirEntries(Environ(env))[j])) == EnvValue(DirEntries(Environ(env))[j])
    {
      assert DirEntries(Environ(env))[j] in DirEntries(Environ(env));
      DirKeyNonEmpty(DirEntries(Environ(env))[j]);
    }
  }

  /** Of two entries with one key, os.Environ() and the lookup both keep the first. */
  lemma LaterDuplicateDropped(x: string, y: string)
    requires '=' in x && '=' in y && EnvKey(x) == EnvKey(y)
    ensures Environ([x, y]) == [x]
    ensures Lookup([x, y], EnvKey(x)) == Some(EnvValue(x))
  {
    var none: seq<string> := [];
    assert [x, y][..1] == [x] && [x][..0] == none;
    assert Lookup([x], EnvKey(x)) == Some(EnvValue(x));
    assert Environ([x]) == [x];
    assert Shadowed([x], y);
  }

  /**
   * A key set twice is reported once by os.Environ(), so it names one directory,
   * with the first value.
   */
  lemma DuplicateKeyListedOnce(key: string, first: string, second: string)
    requires '=' !in key && HasPrefix(key, DirPrefix)
    ensures Environ([key + "=" + first, key + "=" + second]) == [key + "=" + first]
    ensures DirEntries(Environ([key + "=" + first, key + "=" + second])) == [key + "=" + first]
    ensures Getenv([key + "=" + first, key + "=" + second], key) == first
  {
    var x, y := key + "=" + first, key + "=" + second;
    assert Environ([x, y]) == [x] && Getenv([x, y], key) == first by {
      EntryJoin(key, first);
      EntryJoin(key, second);
      LaterDuplicateDropped(x, y);
      assert key != "";
    }
    assert DirEntries([x]) == [x] by {
      assert x[..|DirPrefix|] == key[..|DirPrefix|];
      DirEntriesSingleton(x);
    }
  }
}
