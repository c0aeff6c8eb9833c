/** Sizzle's bounded caches, and the token lists kept in one while callers cut up their copies. */
module TokenCache {
  import opened Dom

  /* ----- createCache ----- */

  /** The keys in order of storing, and the stored values. */
  datatype Store<V> = Store(keys: seq<string>, values: map<string, V>)

  ghost predicate Sound<V>(s: Store<V>, cacheLength: nat) {
    && (forall i, j :: 0 <= i < j < |s.keys| ==> s.keys[i] != s.keys[j])
    && (forall k :: k in s.values <==> k in s.keys)
    && |s.keys| <= cacheLength
  }

  /** Store under a key; past the limit the oldest key goes first. */
  function Put<V>(s: Store<V>, cacheLength: nat, key: string, value: V): Store<V> {
    var keys := s.keys + [key];
    if |keys| > cacheLength then Store(keys[1..], (s.values - {keys[0]})[key := value])
    else Store(keys, s.values[key := value])
  }

  /** Storing keeps the keys distinct, equal to the stored ones and within the limit exactly
      when there is room for a key at all and the key is new, or is the one that goes. */
  lemma PutSound<V>(s: Store<V>, cacheLength: nat, key: string, value: V)
    requires Sound(s, cacheLength)
    ensures Sound(Put(s, cacheLength, key, value), cacheLength) <==>
      cacheLength > 0 && (key !in s.keys || (|s.keys| == cacheLength && s.keys[0] == key))
  {
    var t := Put(s, cacheLength, key, value);
    var all := s.keys + [key];
    if cacheLength == 0 {
      assert key in t.values && t.keys == [];
    } else if key !in s.keys {
      NewKey(s, cacheLength, key, value);
    } else {
      var i :| 0 <= i < |s.keys| && s.keys[i] == key;
      if |s.keys| < cacheLength {
        assert t.keys[i] == t.keys[|s.keys|];
      } else if i > 0 {
        assert t.keys[i - 1] == t.keys[|t.keys| - 1] && s.keys[0] != s.keys[i];
      } else {
        OldestKey(s, cacheLength, key, value);
      }
    }
  }

  lemma NewKey<V>(s: Store<V>, cacheLength: nat, key: string, value: V)
    requires Sound(s, cacheLength) && cacheLength > 0 && key !in s.keys
    ensures Sound(Put(s, cacheLength, key, value), cacheLength)
  {
    var t := Put(s, cacheLength, key, value);
    var all := s.keys + [key];
    assert forall i, j :: 0 <= i < j < |all| ==> all[i] != all[j];
    forall k ensures k in t.values <==> k in t.keys {
      assert k in all <==> k in s.keys || k == key;
      if |all| > cacheLength {
        assert all == [all[0]] + all[1..];
        assert k in all <==> k == all[0] || k in all[1..];
        assert all[0] !in all[1..];
      }
    }
  }

  lemma OldestKey<V>(s: Store<V>, cacheLength: nat, key: string, value: V)
    requires Sound(s, cacheLength) && cacheLength > 0 && |s.keys| == cacheLength && s.keys[0] == key
    ensures Sound(Put(s, cacheLength, key, value), cacheLength)
  {
    var t := Put(s, cacheLength, key, value);
    assert t.keys == s.keys[1..] + [key];
    forall k ensures k in t.values <==> k in t.keys {
      assert s.keys == [key] + s.keys[1..];
      assert k in s.keys <==> k == key || k in s.keys[1..];
    }
  }

  /** The function `createCache` returns; keys are kept with a space behind them. */
  class Cache<V> {
    const cacheLength: nat
    var keys: seq<string>
    var values: map<string, V>

    function Now(): Store<V>
      reads this
    {
      Store(keys, values)
    }

    constructor (cacheLength: nat)
      ensures this.cacheLength == cacheLength && Now() == Store([], map[]) && Sound(Now(), cacheLength)
    {
      this.cacheLength, keys, values := cacheLength, [], map[];
    }

    method Keep(key: string, value: V)
      requires Sound(Now(), cacheLength) && cacheLength > 0 && key + " " !in values
      modifies this
      ensures Now() == Put(old(Now()), cacheLength, key + " ", value) && Sound(Now(), cacheLength)
      ensures keys == (if |old(keys)| < cacheLength then old(keys) else old(keys)[1..]) + [key + " "]
      ensures forall k :: k in values <==> k in keys
      ensures forall k :: k in values ==> if k == key + " " then values[k] == value else k in old(values) && values[k] == old(values)[k]
    {
      NewKey(Now(), cacheLength, key + " ", value);
      keys := keys + [key + " "];
      if |keys| > cacheLength {
        values := values - {keys[0]};
        keys := keys[1..];
      }
      values := values[key + " " := value];
    }
  }

  /* ----- token lists on the heap ----- */

  /** An array of tokens, and an array of such arrays. */
  class TokenList<T> {
    var tokens: seq<T>

    constructor (tokens: seq<T>)
      ensures this.tokens == tokens
    {
      this.tokens := tokens;
    }
  }

  class GroupList<T> {
    var groups: seq<TokenList<T>>

    constructor (groups: seq<TokenList<T>>)
      ensures this.groups == groups
    {
      this.groups := groups;
    }
  }

  /** The tokens the list of lists holds. */
  ghost predicate Holds<T(!new)>(g: GroupList<T>, value: seq<seq<T>>)
    reads g, g.groups
  {
    |g.groups| == |value| && forall i :: 0 <= i < |value| ==> g.groups[i].tokens == value[i]
  }

  /** `parse` is what tokenizing gives without a cache; `None` is a syntax error. */
  class Tokenizer<T(!new)> {
    const parse: string -> Option<seq<seq<T>>>
    const tokenCache: Cache<GroupList<T>>
    ghost var outers: set<GroupList<T>>
    ghost var lists: set<TokenList<T>>

    /** Every cached entry is what a fresh tokenizing of its key gives. */
    ghost predicate Valid()
      reads this, tokenCache, outers, lists
    {
      && Sound(tokenCache.Now(), tokenCache.cacheLength) && tokenCache.cacheLength > 0
      && forall k :: k in tokenCache.values ==> Entry(k, tokenCache.values[k])
    }

    ghost predicate Entry(k: string, g: GroupList<T>)
      reads this, outers, lists
    {
      && k != "" && g in outers && (forall i :: 0 <= i < |g.groups| ==> g.groups[i] in lists)
      && parse(k[..|k| - 1]).Some? && Holds(g, parse(k[..|k| - 1]).value)
    }

    constructor (parse: string -> Option<seq<seq<T>>>, cacheLength: nat)
      requires cacheLength > 0
      ensures Valid() && this.parse == parse && fresh(tokenCache) && outers == {} && lists == {}
    {
      this.parse := parse;
      tokenCache := new Cache(cacheLength);
      outers, lists := {}, {};
    }

    /** New arrays for freshly made tokens. */
    method Build(value: seq<seq<T>>) returns (g: GroupList<T>)
      ensures fresh(g) && fresh(g.groups) && Holds(g, value)
    {
      var groups: seq<TokenList<T>> := [];
      var i := 0;
      while i < |value|
        invariant 0 <= i <= |value| && |groups| == i && fresh(groups)
        invariant forall j :: 0 <= j < i ==> groups[j].tokens == value[j]
      {
        var t := new TokenList(value[i]);
        groups := groups + [t];
        i := i + 1;
      }
      g := new GroupList(groups);
    }

    /** The end of `tokenize`: store the new arrays. */
    method Remember(selector: string) returns (g: GroupList<T>)
      requires Valid() && parse(selector).Some? && selector + " " !in tokenCache.values
      modifies this`outers, this`lists, tokenCache
      ensures Valid() && fresh(outers - old(outers)) && fresh(lists - old(lists))
      ensures g in outers && Holds(g, parse(selector).value)
      ensures forall i :: 0 <= i < |g.groups| ==> g.groups[i] in lists
    {
      hide Sound, Put;
      g := Build(parse(selector).value);
      outers := outers + {g};
      lists := lists + (set t | t in g.groups);
      NewEntry(selector, g);
      StillValid();
      tokenCache.Keep(selector, g);
    }

    lemma NewEntry(selector: string, g: GroupList<T>)
      requires g in outers && (forall i :: 0 <= i < |g.groups| ==> g.groups[i] in lists)
      requires parse(selector).Some? && Holds(g, parse(selector).value)
      ensures Entry(selector + " ", g)
    {
      var key := selector + " ";
      assert key[..|key| - 1] == selector;
    }

    /** More arrays of its own make no entry wrong. */
    twostate lemma StillValid()
      requires old(Valid()) && old(outers) <= outers && old(lists) <= lists && unchanged(tokenCache)
      requires forall g :: g in old(outers) ==> unchanged(g)
      requires forall t :: t in old(lists) ==> unchanged(t)
      ensures Valid()
    {
      hide Sound;
      forall k | k in tokenCache.values ensures Entry(k, tokenCache.values[k]) {
        var g := tokenCache.values[k];
        assert old(Entry(k, g));
        assert old(Holds(g, parse(k[..|k| - 1]).value));
        assert unchanged(g);
        forall i | 0 <= i < |g.groups| ensures g.groups[i].tokens == parse(k[..|k| - 1]).value[i] {
          assert unchanged(g.groups[i]);
        }
      }
    }

    /** `tokenize`: hit or miss, the caller gets a new outer array around the tokens a fresh
        tokenizing gives; the inner arrays may be the cached ones. */
    method Tokenize(selector: string) returns (r: Option<GroupList<T>>)
      requires Valid()
      modifies this`outers, this`lists, tokenCache
      ensures Valid() && fresh(outers - old(outers)) && fresh(lists - old(lists))
      ensures r.Some? <==> parse(selector).Some?
      ensures r.Some? ==>
        && fresh(r.value) && r.value !in outers && Holds(r.value, parse(selector).value)
        && forall i :: 0 <= i < |r.value.groups| ==> r.value.groups[i] in lists
    {
      var key := selector + " ";
      assert key[..|key| - 1] == selector;
      if key in tokenCache.values {
        var cached := tokenCache.values[key];
        assert Entry(key, cached);
        var copy := new GroupList(cached.groups);
        return Some(copy);
      }
      if parse(selector).None? {
        return None;
      }
      var g := Remember(selector);
      var copy := new GroupList(g.groups);
      r := Some(copy);
    }
  }
}
