/**
 * The helpers of functions.js: the TTL memo cache, `paginate`, the admin-set
 * union `getCombinedAdmins` and the HTML entity encoder `escapeHtml`.
 */
module Functions {
  import opened Common
  import opened Strings

  // ---------------------------------------------------------------- TTL cache

  /** The `ttl` the cache uses when its caller gives none, in milliseconds. */
  const DefaultTtl: int := 60000

  /** A memoised value with its absolute expiry time; `None` is `expiry: null` (never expires). */
  datatype Entry<V> = Entry(value: V, expiry: Option<int>)

  /** What the fetch function does when the cache calls it: resolves with a value or rejects. */
  datatype Fetch<V> = Fetched(value: V) | FetchFailed

  /**
   * What a `cache` call gives its caller: the stored value without calling the
   * fetch function, the freshly fetched value, or the fetch function's rejection.
   */
  datatype CacheAnswer<V> = Hit(value: V) | Computed(value: V) | Rejected

  datatype CacheStep<V> = CacheStep(entries: map<string, Entry<V>>, answer: CacheAnswer<V>)

  /**
   * Whether a stored entry may be served at time `now`: its expiry is absent
   * or falsy (zero), or lies strictly in the future.
   */
  function Live<V>(e: Entry<V>, now: nat): (b: bool)
    ensures !b <==> e.expiry.Some? && e.expiry.value != 0 && e.expiry.value <= now
  {
    e.expiry.None? || e.expiry.value == 0 || e.expiry.value > now
  }

  /** The entry a successful fetch at time `now` stores. */
  function Stored<V>(v: V, ttl: int, now: nat): (e: Entry<V>)
    ensures e.value == v
    ensures ttl > 0 ==> e.expiry == Some(now + ttl)
    ensures ttl <= 0 ==> e.expiry.None?
  {
    Entry(v, if ttl > 0 then Some(now + ttl) else None)
  }

  /** One `cache(key, fetchFunction, ttl)` call at clock time `now`, on the cache map `entries`. */
  function CacheGet<V>(entries: map<string, Entry<V>>, key: string, fetch: Fetch<V>, ttl: int, now: nat): (r: CacheStep<V>)
    ensures forall k :: k != key ==> (k in r.entries <==> k in entries)
    ensures forall k :: k != key && k in entries ==> r.entries[k] == entries[k]
    ensures r.answer.Hit? <==> key in entries && Live(entries[key], now)
    ensures r.answer.Rejected? <==> !r.answer.Hit? && fetch.FetchFailed?
  {
    if key in entries && Live(entries[key], now) then
      CacheStep(entries, Hit(entries[key].value))
    else
      var evicted := entries - {key};
      match fetch
      case FetchFailed => CacheStep(evicted, Rejected)
      case Fetched(v) => CacheStep(evicted[key := Stored(v, ttl, now)], Computed(v))
  }

  /** A live entry is served as is: the fetch function is not called and the map does not change. */
  lemma CacheHitServesStored<V>(entries: map<string, Entry<V>>, key: string, fetch: Fetch<V>, ttl: int, now: nat)
    requires key in entries && Live(entries[key], now)
    ensures CacheGet(entries, key, fetch, ttl, now) == CacheStep(entries, Hit(entries[key].value))
  {
  }

  /** On a miss a successful fetch is stored with expiry `now + ttl` (or none when `ttl <= 0`) and returned. */
  lemma CacheMissStoresFetched<V>(entries: map<string, Entry<V>>, key: string, v: V, ttl: int, now: nat)
    requires !(key in entries && Live(entries[key], now))
    ensures var r := CacheGet(entries, key, Fetched(v), ttl, now);
      && r.answer == Computed(v)
      && key in r.entries && r.entries[key] == Entry(v, if ttl > 0 then Some(now + ttl) else None)
  {
  }

  /** On a miss a rejected fetch stores nothing for the key, and an expired entry stays evicted. */
  lemma CacheFailureStoresNothing<V>(entries: map<string, Entry<V>>, key: string, ttl: int, now: nat)
    requires !(key in entries && Live(entries[key], now))
    ensures var r := CacheGet(entries, key, FetchFailed, ttl, now);
      r.answer == Rejected && key !in r.entries && r.entries == entries - {key}
  {
  }

  /**
   * A value fetched at time `t` with `ttl > 0` is served, whatever a later fetch
   * would give, exactly until `t + ttl`; from then on the fetch function runs again.
   */
  lemma {:induction false} CacheServesUntilExpiry<V>(entries: map<string, Entry<V>>, key: string, v: V, ttl: int, t: nat,
                                                    later: Fetch<V>, t': nat)
    requires !(key in entries && Live(entries[key], t))
    requires ttl > 0 && t <= t'
    ensures var first := CacheGet(entries, key, Fetched(v), ttl, t);
      var second := CacheGet(first.entries, key, later, ttl, t');
      (t' < t + ttl ==> second == CacheStep(first.entries, Hit(v)))
      && (t' >= t + ttl ==> !second.answer.Hit?)
  {
    var first := CacheGet(entries, key, Fetched(v), ttl, t);
    assert first.entries[key] == Entry(v, Some(t + ttl));
  }

  /** A value fetched with `ttl <= 0` never expires: every later call serves it. */
  lemma {:induction false} CacheWithoutTtlNeverExpires<V>(entries: map<string, Entry<V>>, key: string, v: V, ttl: int, t: nat,
                                                         later: Fetch<V>, ttl': int, t': nat)
    requires !(key in entries && Live(entries[key], t))
    requires ttl <= 0
    ensures var first := CacheGet(entries, key, Fetched(v), ttl, t);
      CacheGet(first.entries, key, later, ttl', t') == CacheStep(first.entries, Hit(v))
  {
    var first := CacheGet(entries, key, Fetched(v), ttl, t);
    assert first.entries[key] == Entry(v, None);
  }

  /** The module-level `localCache` map and the `cache` function that reads and updates it. */
  class Cache<V> {
    var localCache: map<string, Entry<V>>

    constructor ()
      ensures localCache == map[]
    {
      localCache := map[];
    }

    /** `cache(key, fetchFunction, ttl)` called at clock time `now`. */
    method Get(now: nat, key: string, fetch: Fetch<V>, ttl: int := DefaultTtl) returns (answer: CacheAnswer<V>)
      modifies this
      ensures CacheStep(localCache, answer) == CacheGet(old(localCache), key, fetch, ttl, now)
    {
      if key in localCache && Live(localCache[key], now) {
        return Hit(localCache[key].value);
      }
      localCache := localCache - {key};
      match fetch
      case FetchFailed =>
        return Rejected;
      case Fetched(v) =>
        localCache := localCache[key := Entry(v, if ttl > 0 then Some(now + ttl) else None)];
        return Computed(v);
    }
  }

  // ---------------------------------------------------------------- paginate

  function Min(a: int, b: int): int {
    if a <= b then a else b
  }

  /** The rows laid end to end. */
  function Flatten<T>(rows: seq<seq<T>>): seq<T> {
    if rows == [] then [] else Flatten(rows[..|rows| - 1]) + rows[|rows| - 1]
  }

  /** Appending a row to the page appends its elements to the flattened page. */
  lemma FlattenAppend<T>(rows: seq<seq<T>>, row: seq<T>)
    ensures Flatten(rows + [row]) == Flatten(rows) + row
  {
    assert (rows + [row])[..|rows|] == rows;
  }

  /** A page whose rows end past the last of its `n` elements holds `1 + n / 2` rows. */
  lemma RowCount(n: nat, rows: nat)
    requires n >= 1 && n <= 2 * rows - 1 <= n + 1
    ensures rows == 1 + n / 2
  {
  }

  /** The rows after the first hold two elements each, except a last row of one when `|a|` is even. */
  lemma RowLengths<T>(a: seq<T>, res: seq<seq<T>>)
    requires |a| > 1 && |res| == 1 + |a| / 2
    requires forall k :: 1 <= k < |res| ==> res[k] == a[2 * k - 1..Min(2 * k + 1, |a|)]
    ensures forall k :: 1 <= k < |res| - 1 ==> |res[k]| == 2
    ensures |res[|res| - 1]| == if |a| % 2 == 0 then 1 else 2
  {
    assert |res[|res| - 1]| == Min(2 * |res| - 1, |a|) - (2 * |res| - 3);
  }

  /**
   * `paginate(arr)`: the first element alone in the first row, then the rest in
   * rows of two; `None` stands for a value that is not an array.
   */
  method Paginate<T>(arr: Option<seq<T>>) returns (res: seq<seq<T>>)
    ensures arr.None? || arr.value == [] ==> res == []
    ensures arr.Some? && arr.value != [] ==>
      var a := arr.value;
      && |res| == 1 + |a| / 2
      && res[0] == [a[0]]
      && (forall k :: 1 <= k < |res| ==> res[k] == a[2 * k - 1..Min(2 * k + 1, |a|)])
    ensures arr.Some? && |arr.value| > 1 ==>
      && (forall k :: 1 <= k < |res| - 1 ==> |res[k]| == 2)
      && |res[|res| - 1]| == if |arr.value| % 2 == 0 then 1 else 2
    ensures Flatten(res) == arr.GetOr([])
  {
    if arr.None? || arr.value == [] {
      return [];
    }
    var a := arr.value;
    res := [[a[0]]];
    FlattenAppend([], [a[0]]);
    var i := 1;
    while i < |a|
      invariant 1 <= i <= |a| + 1 && i == 2 * |res| - 1
      invariant res[0] == [a[0]]
      invariant forall k :: 1 <= k < |res| ==> res[k] == a[2 * k - 1..Min(2 * k + 1, |a|)]
      invariant Flatten(res) == a[..Min(i, |a|)]
    {
      var row := a[i..Min(i + 2, |a|)];
      FlattenAppend(res, row);
      assert a[..Min(i + 2, |a|)] == a[..i] + row;
      res := res + [row];
      i := i + 2;
    }
    assert a[..Min(i, |a|)] == a;
    RowCount(|a|, |res|);
    if |a| > 1 {
      RowLengths(a, res);
    }
  }

  // ---------------------------------------------------------------- admins

  /** A configured or stored admin identifier, as JavaScript holds it: a number or a string. */
  datatype Scalar = Num(n: int) | Str(s: string)

  /** `String(x)`. */
  function ToStr(x: Scalar): string {
    match x
    case Num(n) => IntToString(n)
    case Str(s) => s
  }

  /** The strings of a list of identifiers (`list.map(String)`), as a set. */
  function StringsOf(xs: seq<Scalar>): (r: set<string>)
    ensures forall x :: x in r <==> exists i :: 0 <= i < |xs| && ToStr(xs[i]) == x
  {
    set i | 0 <= i < |xs| :: ToStr(xs[i])
  }

  /**
   * The `admins` field of the stored admin record: absent (no record, or no such
   * field), `null`, an array, a comma-delimited string, or some other value.
   */
  datatype StoredAdmins = Absent | AdminNull | AdminList(items: seq<Scalar>) | AdminCsv(text: string) | AdminOther

  /** The outcome of reading the admin record: its `admins` field, or a storage error. */
  datatype AdminRead = ReadOk(stored: StoredAdmins) | ReadFailed

  /** The stored admin list as getCombinedAdmins reads it; any other shape reads as `[]`. */
  function DbAdmins(stored: StoredAdmins): (xs: seq<Scalar>)
    ensures stored.AdminCsv? ==>
      && |xs| == |Split(stored.text, ',')|
      && forall i :: 0 <= i < |xs| ==> xs[i] == Str(Split(stored.text, ',')[i])
    ensures !stored.AdminCsv? && !stored.AdminList? ==> xs == []
  {
    match stored
    case AdminList(items) => items
    case AdminCsv(text) =>
      var parts := Split(text, ',');
      seq(|parts|, i requires 0 <= i < |parts| => Str(parts[i]))
    case _ => []
  }

  /** `getCombinedAdmins()` given `config.admins` and the outcome of reading the stored record. */
  function CombinedAdmins(config: seq<Scalar>, read: AdminRead): (r: set<string>)
    ensures read.ReadFailed? ==> r == {}
    ensures read.ReadOk? && read.stored.AdminList? ==> r == StringsOf(config) + StringsOf(read.stored.items)
    ensures read.ReadOk? && read.stored.AdminCsv? ==>
      forall x :: x in r <==> x in StringsOf(config) || x in Split(read.stored.text, ',')
    ensures read.ReadOk? && !read.stored.AdminList? && !read.stored.AdminCsv? ==> r == StringsOf(config)
  {
    match read
    case ReadFailed => {}
    case ReadOk(stored) =>
      var db := DbAdmins(stored);
      assert stored.AdminCsv? ==> forall i :: 0 <= i < |db| ==> ToStr(db[i]) == Split(stored.text, ',')[i];
      StringsOf(config) + StringsOf(db)
  }

  // ---------------------------------------------------------------- escapeHtml

  /** The five characters escapeHtml rewrites. */
  predicate IsHtmlSpecial(c: char) {
    c == '<' || c == '>' || c == '&' || c == '"' || c == '\''
  }

  function EscapeChar(c: char): (e: string)
    ensures !IsHtmlSpecial(c) ==> e == [c]
    ensures |e| > 0 && (IsHtmlSpecial(c) ==> e[0] == '&')
  {
    match c
    case '<' => "&lt;"
    case '>' => "&gt;"
    case '&' => "&amp;"
    case '"' => "&quot;"
    case '\'' => "&#39;"
    case _ => [c]
  }

  /** `escapeHtml(str = "")`: every special character replaced by its entity, all others copied. */
  function EscapeHtml(s: string := ""): (r: string)
    ensures forall i :: 0 <= i < |r| ==> r[i] != '<' && r[i] != '>' && r[i] != '"' && r[i] != '\''
    ensures |r| >= |s|
  {
    if s == [] then [] else EscapeChar(s[0]) + EscapeHtml(s[1..])
  }

  /** Called without an argument, escapeHtml gives the empty string. */
  lemma EscapeHtmlDefault()
    ensures EscapeHtml() == ""
  {
  }

  /** Escaping works character by character: it distributes over concatenation. */
  lemma {:induction false} EscapeHtmlAppend(a: string, b: string)
    ensures EscapeHtml(a + b) == EscapeHtml(a) + EscapeHtml(b)
    decreases |a|
  {
    if a != [] {
      assert (a + b)[0] == a[0];
      assert (a + b)[1..] == a[1..] + b;
      EscapeHtmlAppend(a[1..], b);
      calc {
        EscapeHtml(a + b);
        EscapeChar(a[0]) + EscapeHtml(a[1..] + b);
        EscapeChar(a[0]) + (EscapeHtml(a[1..]) + EscapeHtml(b));
        (EscapeChar(a[0]) + EscapeHtml(a[1..])) + EscapeHtml(b);
      }
    } else {
      assert a + b == b;
    }
  }

  /** A text without special characters is left as it is. */
  lemma {:induction false} EscapeHtmlPlain(s: string)
    requires forall i :: 0 <= i < |s| ==> !IsHtmlSpecial(s[i])
    ensures EscapeHtml(s) == s
  {
    if s != [] {
      EscapeHtmlPlain(s[1..]);
    }
  }

  /** The entity `s` starts with, if any: the character it stands for and its length. */
  function EntityAt(s: string): (r: Option<(char, nat)>)
    ensures r.Some? ==> 0 < r.value.1 <= |s|
    ensures r.Some? ==> s[0] == '&'
  {
    if StartsWith(s, "&lt;") then Some(('<', 4))
    else if StartsWith(s, "&gt;") then Some(('>', 4))
    else if StartsWith(s, "&amp;") then Some(('&', 5))
    else if StartsWith(s, "&quot;") then Some(('"', 6))
    else if StartsWith(s, "&#39;") then Some(('\'', 5))
    else None
  }

  /** Decoding of the five entities escapeHtml produces; every other character is copied. */
  function Unescape(s: string): string
    decreases |s|
  {
    if s == [] then []
    else match EntityAt(s)
      case Some((c, n)) => [c] + Unescape(s[n..])
      case None => [s[0]] + Unescape(s[1..])
  }

  /** An escaped character is recognised again, whatever follows it. */
  lemma EntityAtEscaped(c: char, rest: string)
    ensures IsHtmlSpecial(c) ==> EntityAt(EscapeChar(c) + rest) == Some((c, |EscapeChar(c)|))
    ensures !IsHtmlSpecial(c) ==> EntityAt(EscapeChar(c) + rest).None?
  {
    var t := EscapeChar(c) + rest;
    assert t[..|EscapeChar(c)|] == EscapeChar(c);
    if c == '>' { assert t[1] == 'g'; }
    if c == '&' { assert t[1] == 'a'; }
    if c == '"' { assert t[1] == 'q'; }
    if c == '\'' { assert t[1] == '#'; }
    if !IsHtmlSpecial(c) { assert t[0] == c; }
  }

  /** One decoding step of `Unescape` on a text that starts with an entity. */
  lemma UnescapeEntity(t: string, c: char, n: nat)
    requires t != [] && EntityAt(t) == Some((c, n))
    ensures Unescape(t) == [c] + Unescape(t[n..])
  {
  }

  /** One decoding step of `Unescape` on a text that does not start with an entity. */
  lemma UnescapeOther(t: string)
    requires t != [] && EntityAt(t).None?
    ensures Unescape(t) == [t[0]] + Unescape(t[1..])
  {
  }

  /** Decoding undoes the escape of one character, whatever follows it. */
  lemma UnescapeEscapeChar(c: char, rest: string)
    ensures Unescape(EscapeChar(c) + rest) == [c] + Unescape(rest)
  {
    var e := EscapeChar(c);
    var t := e + rest;
    EntityAtEscaped(c, rest);
    if IsHtmlSpecial(c) {
      UnescapeEntity(t, c, |e|);
      assert t[|e|..] == rest;
    } else {
      UnescapeOther(t);
      assert t[0] == c && t[1..] == rest;
    }
  }

  /** Escaping loses nothing: decoding the escaped text gives back the original. */
  lemma {:induction false} EscapeHtmlRoundTrip(s: string)
    ensures Unescape(EscapeHtml(s)) == s
    decreases |s|
  {
    if s != [] {
      EscapeHtmlRoundTrip(s[1..]);
      UnescapeEscapeChar(s[0], EscapeHtml(s[1..]));
      assert s == [s[0]] + s[1..];
    }
  }
}
