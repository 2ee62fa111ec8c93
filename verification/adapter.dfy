/** The environment that the toolkit builds for a backend: parse the inherited one, clear every
    managed variable, overlay the selected profile, sort.

    Strings stand for Go's byte strings. */
module Adapter {

  datatype Adapter = Adapter(
    schema: int, id: string, description: string, boardAbi: string, payloadSchema: string,
    backendCli: string, boardEnv: string, clearEnv: seq<string>,
    profiles: map<string, map<string, string>>)

  type Env = map<string, string>

  datatype Result<T> = Success(value: T) | UnknownProfile(profile: string)

  const BACKEND_CLI: string := "go1relay-flags-v1"

  // ---------- What `loadAdapter` checks ----------

  predicate Initial(c: char) {
    'A' <= c <= 'Z' || c == '_'
  }

  /** `^[A-Z_][A-Z0-9_]*$` */
  predicate EnvName(s: string) {
    s != "" && Initial(s[0]) && forall i :: 0 <= i < |s| ==> Initial(s[i]) || '0' <= s[i] <= '9'
  }

  predicate ValidVariable(a: Adapter, key: string, value: string) {
    EnvName(key) && key != a.boardEnv && '\0' !in value
  }

  predicate ValidProfile(a: Adapter, name: string)
    requires name in a.profiles
  {
    name != "" && forall key :: key in a.profiles[name] ==> ValidVariable(a, key, a.profiles[name][key])
  }

  predicate ValidMetadata(a: Adapter) {
    && a.schema == 1 && a.id != "" && a.boardAbi != "" && a.payloadSchema != ""
    && a.backendCli == BACKEND_CLI && EnvName(a.boardEnv) && |a.profiles| != 0
  }

  predicate Validated(a: Adapter) {
    && ValidMetadata(a)
    && (forall i :: 0 <= i < |a.clearEnv| ==> EnvName(a.clearEnv[i]))
    && forall name :: name in a.profiles ==> ValidProfile(a, name)
  }

  const CAPITALS: string := "ABCDEFGHIJKLMNOPQRSTUVWXYZ_"
  const DIGITS: string := "0123456789"

  lemma Alphabets(c: char)
    ensures Initial(c) <==> c in CAPITALS
    ensures '0' <= c <= '9' <==> c in DIGITS
  {
    if Initial(c) {
      var i: nat := if c == '_' then 26 else c as int - 'A' as int;
      assert CAPITALS[i] == c;
    }
    if '0' <= c <= '9' {
      assert DIGITS[c as int - '0' as int] == c;
    }
  }

  /** The names, by their alphabets. */
  lemma EnvNameMeans(s: string)
    ensures EnvName(s) <==>
            |s| > 0 && s[0] in CAPITALS && forall i :: 0 <= i < |s| ==> s[i] in CAPITALS || s[i] in DIGITS
  {
    if |s| > 0 {
      Alphabets(s[0]);
    }
    forall i | 0 <= i < |s|
      ensures Initial(s[i]) || '0' <= s[i] <= '9' <==> s[i] in CAPITALS || s[i] in DIGITS
    {
      Alphabets(s[i]);
    }
  }

  /** All the checks at once. */
  lemma ValidatedMeans(a: Adapter)
    ensures Validated(a) <==>
            && a.schema == 1 && |a.id| > 0 && |a.boardAbi| > 0 && |a.payloadSchema| > 0
            && a.backendCli == "go1relay-flags-v1" && |a.profiles| > 0
            && EnvName(a.boardEnv) && (forall key :: key in a.clearEnv ==> EnvName(key))
            && forall name :: name in a.profiles ==>
                 && name != ""
                 && forall key :: key in a.profiles[name] ==>
                      EnvName(key) && key != a.boardEnv && '\0' !in a.profiles[name][key]
  {
    hide EnvName;
  }

  /** The checks, with the maps visited in any order. */
  method Validate(a: Adapter) returns (ok: bool)
    ensures ok <==> Validated(a)
  {
    if !ValidMetadata(a) {
      return false;
    }
    for i := 0 to |a.clearEnv|
      invariant forall j :: 0 <= j < i ==> EnvName(a.clearEnv[j])
    {
      if !EnvName(a.clearEnv[i]) {
        return false;
      }
    }
    var names := a.profiles.Keys;
    while names != {}
      invariant names <= a.profiles.Keys
      invariant forall name :: name in a.profiles && name !in names ==> ValidProfile(a, name)
      decreases |names|
    {
      var name :| name in names;
      if name == "" {
        return false;
      }
      var keys := a.profiles[name].Keys;
      while keys != {}
        invariant keys <= a.profiles[name].Keys
        invariant forall key :: key in a.profiles[name] && key !in keys ==> ValidVariable(a, key, a.profiles[name][key])
        decreases |keys|
      {
        var key :| key in keys;
        if !ValidVariable(a, key, a.profiles[name][key]) {
          return false;
        }
        keys := keys - {key};
      }
      names := names - {name};
    }
    return true;
  }

  // ---------- Environments ----------

  /** The position of the first `=`, or the length. */
  function Cut(v: string): (n: nat)
    ensures n <= |v| && '=' !in v[..n] && (n < |v| ==> v[n] == '=')
  {
    if v == "" || v[0] == '=' then 0
    else
      var n := 1 + Cut(v[1..]);
      assert v[..n] == [v[0]] + v[1..][..n - 1];
      n
  }

  /** `strings.SplitN(v, "=", 2)` into the map; an entry without `=` is ignored. */
  function Assign(env: Env, v: string): Env {
    var n := Cut(v);
    if n < |v| then env[v[..n] := v[n + 1..]] else env
  }

  /** The variables of a list of `key=value` entries; later entries win. */
  function Parse(base: seq<string>): Env {
    if base == [] then map[] else Assign(Parse(base[..|base| - 1]), base[|base| - 1])
  }

  lemma {:induction false} CutAt(v: string, n: nat)
    requires n < |v| && v[n] == '=' && '=' !in v[..n]
    ensures Cut(v) == n
  {
    if n == 0 {
    } else {
      assert v[..n] == [v[0]] + v[1..][..n - 1];
      CutAt(v[1..], n - 1);
    }
  }

  /** The last entry that starts with this key and `=` decides. */
  ghost predicate Assigns(entry: string, key: string) {
    |key| < |entry| && entry[..|key|] == key && entry[|key|] == '='
  }

  lemma {:induction false} ParseMeans(base: seq<string>, key: string)
    requires '=' !in key
    ensures key in Parse(base) <==> exists i :: 0 <= i < |base| && Assigns(base[i], key)
    ensures key in Parse(base) ==>
              exists i ::
                && 0 <= i < |base| && Assigns(base[i], key) && Parse(base)[key] == base[i][|key| + 1..]
                && forall j :: i < j < |base| ==> !Assigns(base[j], key)
  {
    hide Assign;
    if base == [] {
    } else {
      var n := |base| - 1;
      var before, v := base[..n], base[n];
      ParseMeans(before, key);
      AssignMeans(Parse(before), v, key);
      assert forall i :: 0 <= i < n ==> before[i] == base[i];
      if Assigns(v, key) {
        assert Assigns(base[n], key);
      } else if key in Parse(before) {
        var i :| 0 <= i < n && Assigns(before[i], key) && Parse(before)[key] == before[i][|key| + 1..]
                 && forall j :: i < j < n ==> !Assigns(before[j], key);
        assert Assigns(base[i], key) && Parse(base)[key] == base[i][|key| + 1..];
      }
    }
  }

  lemma AssignMeans(env: Env, v: string, key: string)
    requires '=' !in key
    ensures if Assigns(v, key) then key in Assign(env, v) && Assign(env, v)[key] == v[|key| + 1..]
            else (key in Assign(env, v) <==> key in env) && (key in env ==> Assign(env, v)[key] == env[key])
  {
    var n := Cut(v);
    if Assigns(v, key) {
      CutAt(v, |key|);
    } else if n < |v| {
      assert v[..n] == key ==> |key| == n;
    }
  }

  /** Every variable that the adapter names anywhere. */
  ghost predicate Managed(a: Adapter, key: string) {
    || key == a.boardEnv
    || key in a.clearEnv
    || exists name :: name in a.profiles && key in a.profiles[name]
  }

  /** What the backend must see: the inherited values of unmanaged variables, the board, and the
      selected profile. */
  ghost function Target(a: Adapter, inherited: Env, profile: string, board: string): (env: Env)
    requires profile in a.profiles
  {
    (map key | key in inherited && !Managed(a, key) :: inherited[key])[a.boardEnv := board] + a.profiles[profile]
  }

  // ---------- Order ----------

  /** Strict lexicographic order. */
  predicate Before(x: string, y: string) {
    y != "" && (x == "" || x[0] < y[0] || (x[0] == y[0] && Before(x[1..], y[1..])))
  }

  lemma {:induction false} BeforeIsStrict(x: string, y: string)
    requires Before(x, y)
    ensures x != y && !Before(y, x)
  {
    if x == "" || x[0] != y[0] {
    } else {
      BeforeIsStrict(x[1..], y[1..]);
    }
  }

  lemma {:induction false} BeforeIsTransitive(x: string, y: string, z: string)
    requires Before(x, y) && Before(y, z)
    ensures Before(x, z)
  {
    if x == "" || x[0] != y[0] || y[0] != z[0] {
    } else {
      BeforeIsTransitive(x[1..], y[1..], z[1..]);
    }
  }

  lemma {:induction false} BeforeIsTotal(x: string, y: string)
    ensures x == y || Before(x, y) || Before(y, x)
  {
    if x == "" || y == "" || x[0] != y[0] {
    } else {
      BeforeIsTotal(x[1..], y[1..]);
      assert x == [x[0]] + x[1..] && y == [y[0]] + y[1..];
    }
  }

  /** The order of Go's strings: a proper prefix comes first, and otherwise the first difference
      decides. */
  lemma {:induction false} BeforeMeans(x: string, y: string)
    ensures Before(x, y) <==> x < y || exists i :: DiffersAt(x, y, i)
  {
    if y == "" || x == "" || x[0] != y[0] {
      if y != "" && x != "" && x[0] < y[0] {
        assert DiffersAt(x, y, 0);
      }
    } else {
      var x', y' := x[1..], y[1..];
      BeforeMeans(x', y');
      assert x == [x[0]] + x' && y == [y[0]] + y';
      if i :| DiffersAt(x', y', i) {
        assert x[..i + 1] == [x[0]] + x'[..i] && y[..i + 1] == [y[0]] + y'[..i];
        assert DiffersAt(x, y, i + 1);
      }
      if i :| DiffersAt(x, y, i) {
        assert i > 0 && x[..i][1..] == x'[..i - 1] && y[..i][1..] == y'[..i - 1];
        assert DiffersAt(x', y', i - 1);
      }
    }
  }

  ghost predicate DiffersAt(x: string, y: string, i: int) {
    0 <= i < |x| && i < |y| && x[..i] == y[..i] && x[i] < y[i]
  }

  ghost predicate Ascending(keys: seq<string>) {
    forall i, j :: 0 <= i < j < |keys| ==> Before(keys[i], keys[j])
  }

  lemma {:induction false} AscendingIsUnique(x: seq<string>, y: seq<string>)
    requires Ascending(x) && Ascending(y) && (forall k :: k in x <==> k in y)
    ensures x == y
  {
    EmptyTogether(x, y);
    if x == [] {
    } else {
      assert x[0] in y;
      assert y[0] in x;
      var i :| 0 <= i < |x| && x[i] == y[0];
      var j :| 0 <= j < |y| && y[j] == x[0];
      if i > 0 && j > 0 {
        BeforeIsStrict(x[0], x[i]);
      }
      forall k
        ensures k in x[1..] <==> k in y[1..]
      {
        TailsDiffer(x, k);
        TailsDiffer(y, k);
      }
      AscendingIsUnique(x[1..], y[1..]);
      assert x == [x[0]] + x[1..] && y == [y[0]] + y[1..];
    }
  }

  lemma EmptyTogether(x: seq<string>, y: seq<string>)
    requires forall k :: k in x <==> k in y
    ensures x == [] <==> y == []
  {
    if x != [] {
      assert x[0] in x;
    }
    if y != [] {
      assert y[0] in y;
    }
  }

  lemma TailsDiffer(x: seq<string>, k: string)
    requires Ascending(x) && x != []
    ensures k in x[1..] <==> k in x && k != x[0]
  {
    if k in x[1..] {
      var i :| 0 <= i < |x| - 1 && x[1..][i] == k;
      BeforeIsStrict(x[0], x[i + 1]);
    }
    if k in x && k != x[0] {
      var i :| 0 <= i < |x| && x[i] == k;
      assert x[1..][i - 1] == k;
    }
  }

  // ---------- Rendering ----------

  function Entry(env: Env, key: string): string
    requires key in env
  {
    key + "=" + env[key]
  }

  /** One entry per variable, with these keys. */
  ghost predicate Lists(entries: seq<string>, keys: seq<string>, env: Env) {
    && |entries| == |keys|
    && (forall key :: key in keys <==> key in env)
    && forall i :: 0 <= i < |keys| ==> keys[i] in env && entries[i] == Entry(env, keys[i])
  }

  /** One entry per variable, in ascending order of keys. */
  ghost predicate Renders(entries: seq<string>, env: Env) {
    exists keys :: Ascending(keys) && Lists(entries, keys, env)
  }

  /** An environment has one rendering only, whatever order its map was visited in. */
  lemma RenderingIsUnique(x: seq<string>, y: seq<string>, env: Env)
    requires Renders(x, env) && Renders(y, env)
    ensures x == y
  {
    hide Ascending, Lists;
    var kx :| Ascending(kx) && Lists(x, kx, env);
    var ky :| Ascending(ky) && Lists(y, ky, env);
    SameKeys(x, kx, env);
    SameKeys(y, ky, env);
    AscendingIsUnique(kx, ky);
    SameEntries(x, y, kx, env);
  }

  lemma SameKeys(entries: seq<string>, keys: seq<string>, env: Env)
    requires Lists(entries, keys, env)
    ensures forall key :: key in keys <==> key in env
  {
  }

  lemma SameEntries(x: seq<string>, y: seq<string>, keys: seq<string>, env: Env)
    requires Lists(x, keys, env) && Lists(y, keys, env)
    ensures x == y
  {
    hide Entry;
  }

  ghost predicate PlainKeys(env: Env) {
    forall key :: key in env ==> '=' !in key
  }

  lemma AssignEntry(env: Env, key: string, value: string)
    requires '=' !in key
    ensures Assign(env, key + "=" + value) == env[key := value]
  {
    var v := key + "=" + value;
    assert v[..|key|] == key && v[|key| + 1..] == value;
    CutAt(v, |key|);
  }

  /** Parsing undoes rendering. */
  lemma {:induction false} ParseEntries(entries: seq<string>, keys: seq<string>, env: Env)
    requires PlainKeys(env) && |entries| == |keys|
    requires forall i :: 0 <= i < |keys| ==> keys[i] in env && entries[i] == Entry(env, keys[i])
    ensures Parse(entries) == map key | key in keys && key in env :: env[key]
  {
    if entries == [] {
    } else {
      var n := |entries| - 1;
      ParseEntries(entries[..n], keys[..n], env);
      AssignEntry(Parse(entries[..n]), keys[n], env[keys[n]]);
      assert keys == keys[..n] + [keys[n]];
    }
  }

  lemma ParseOfRendering(entries: seq<string>, env: Env)
    requires PlainKeys(env) && Renders(entries, env)
    ensures Parse(entries) == env
  {
    var keys :| Ascending(keys) && Lists(entries, keys, env);
    ParseEntries(entries, keys, env);
  }

  lemma {:induction false} ParsedKeysArePlain(base: seq<string>)
    ensures PlainKeys(Parse(base))
  {
    if base == [] {
    } else {
      ParsedKeysArePlain(base[..|base| - 1]);
    }
  }

  lemma TargetKeysArePlain(a: Adapter, base: seq<string>, profile: string, board: string)
    requires Validated(a) && profile in a.profiles
    ensures PlainKeys(Target(a, Parse(base), profile, board))
  {
    ParsedKeysArePlain(base);
    forall key | key in Target(a, Parse(base), profile, board)
      ensures '=' !in key
    {
      if key in a.profiles[profile] {
        assert ValidProfile(a, profile);
        assert ValidVariable(a, key, a.profiles[profile][key]);
      }
    }
  }

  // ---------- The laws ----------

  /** The result depends on the inherited environment only through its unmanaged variables. */
  lemma ManagedValuesDoNotMatter(a: Adapter, x: Env, y: Env, profile: string, board: string)
    requires profile in a.profiles
    requires forall key :: !Managed(a, key) ==> (key in x <==> key in y) && (key in x ==> x[key] == y[key])
    ensures Target(a, x, profile, board) == Target(a, y, profile, board)
  {
  }

  /** The selected profile and the board are set exactly, and nothing else that is managed is. */
  lemma ManagedIsExact(a: Adapter, inherited: Env, profile: string, board: string, key: string)
    requires Validated(a) && profile in a.profiles && Managed(a, key)
    ensures var env := Target(a, inherited, profile, board);
            if key == a.boardEnv then key in env && env[key] == board
            else if key in a.profiles[profile] then key in env && env[key] == a.profiles[profile][key]
            else key !in env
  {
    assert ValidProfile(a, profile);
    assert forall k :: k in a.profiles[profile] ==> ValidVariable(a, k, a.profiles[profile][k]);
  }

  lemma TargetOfTarget(a: Adapter, inherited: Env, p1: string, b1: string, p2: string, b2: string)
    requires p1 in a.profiles && p2 in a.profiles
    ensures Target(a, Target(a, inherited, p1, b1), p2, b2) == Target(a, inherited, p2, b2)
  {
    var env := Target(a, inherited, p1, b1);
    forall key | !Managed(a, key)
      ensures (key in env <==> key in inherited) && (key in env ==> env[key] == inherited[key])
    {
      assert key !in a.profiles[p1] && key != a.boardEnv;
    }
    ManagedValuesDoNotMatter(a, env, inherited, p2, b2);
  }

  /** Building an environment from one that was built before, for any profile and board, is the same
      as building it from the original. */
  lemma Absorption(a: Adapter, base: seq<string>, p1: string, b1: string, first: seq<string>,
                   p2: string, b2: string, second: seq<string>, direct: seq<string>)
    requires Validated(a) && p1 in a.profiles && p2 in a.profiles
    requires Renders(first, Target(a, Parse(base), p1, b1))
    requires Renders(second, Target(a, Parse(first), p2, b2))
    requires Renders(direct, Target(a, Parse(base), p2, b2))
    ensures second == direct
  {
    hide Target, Parse, Renders, PlainKeys;
    TargetKeysArePlain(a, base, p1, b1);
    ParseOfRendering(first, Target(a, Parse(base), p1, b1));
    TargetOfTarget(a, Parse(base), p1, b1, p2, b2);
    RenderingIsUnique(second, direct, Target(a, Parse(base), p2, b2));
  }

  /** What the backend gets, variable by variable. */
  lemma EnvironmentMeans(a: Adapter, base: seq<string>, profile: string, board: string, entries: seq<string>, key: string)
    requires Validated(a) && profile in a.profiles
    requires Renders(entries, Target(a, Parse(base), profile, board))
    ensures var env, inherited := Parse(entries), Parse(base);
            var inSome := exists name :: name in a.profiles && key in a.profiles[name];
            if key == a.boardEnv then key in env && env[key] == board
            else if key in a.profiles[profile] then key in env && env[key] == a.profiles[profile][key]
            else if key in a.clearEnv || inSome then key !in env
            else (key in env <==> key in inherited) && (key in env ==> env[key] == inherited[key])
  {
    hide Parse, Renders;
    TargetKeysArePlain(a, base, profile, board);
    ParseOfRendering(entries, Target(a, Parse(base), profile, board));
    assert ValidProfile(a, profile);
    assert forall k :: k in a.profiles[profile] ==> ValidVariable(a, k, a.profiles[profile][k]);
  }

  // ---------- The program ----------

  /** `sort.Strings` on distinct strings. */
  method SortStrings(keys: seq<string>) returns (sorted: seq<string>)
    requires forall i, j :: 0 <= i < j < |keys| ==> keys[i] != keys[j]
    ensures Ascending(sorted) && (forall key :: key in sorted <==> key in keys)
  {
    sorted := [];
    for i := 0 to |keys|
      invariant Ascending(sorted) && (forall key :: key in sorted <==> key in keys[..i])
    {
      var at := 0;
      while at < |sorted| && Before(sorted[at], keys[i])
        invariant 0 <= at <= |sorted|
        invariant forall j :: 0 <= j < at ==> Before(sorted[j], keys[i])
      {
        at := at + 1;
      }
      Inserted(sorted, at, keys[i], keys[..i]);
      sorted := sorted[..at] + [keys[i]] + sorted[at..];
      assert keys[..i + 1] == keys[..i] + [keys[i]];
    }
    assert keys[..|keys|] == keys;
  }

  lemma Inserted(sorted: seq<string>, at: nat, key: string, keys: seq<string>)
    requires Ascending(sorted) && at <= |sorted| && key !in keys && (forall k :: k in sorted <==> k in keys)
    requires forall j :: 0 <= j < at ==> Before(sorted[j], key)
    requires at < |sorted| ==> !Before(sorted[at], key)
    ensures Ascending(sorted[..at] + [key] + sorted[at..])
    ensures forall k :: k in sorted[..at] + [key] + sorted[at..] <==> k in keys || k == key
  {
    if at < |sorted| {
      assert sorted[at] in keys;
      BeforeIsTotal(sorted[at], key);
      forall j | at < j < |sorted|
        ensures Before(key, sorted[j])
      {
        BeforeIsTransitive(key, sorted[at], sorted[j]);
      }
    }
    assert sorted == sorted[..at] + sorted[at..];
  }

  lemma TargetBuilt(a: Adapter, inherited: Env, left: Env, profile: string, board: string)
    requires profile in a.profiles && LeftOf(left, inherited, key => Managed(a, key))
    ensures left[a.boardEnv := board] + a.profiles[profile] == Target(a, inherited, profile, board)
  {
    hide Managed;
    assert left == map key | key in inherited && !Managed(a, key) :: inherited[key];
  }

  /** Both maps are visited in any order; the result is the one rendering of the target. */
  method Environment(a: Adapter, base: seq<string>, profile: string, board: string)
    returns (r: Result<seq<string>>)
    ensures r.Success? <==> profile in a.profiles
    ensures r.Success? ==> Renders(r.value, Target(a, Parse(base), profile, board))
    ensures r.UnknownProfile? ==> r.profile == profile
    ensures r.Success? && Validated(a) ==>
              forall key ::
                var env, inherited := Parse(r.value), Parse(base);
                if key == a.boardEnv then key in env && env[key] == board
                else if key in a.profiles[profile] then key in env && env[key] == a.profiles[profile][key]
                else if key in a.clearEnv || (exists name :: name in a.profiles && key in a.profiles[name])
                then key !in env
                else (key in env <==> key in inherited) && (key in env ==> env[key] == inherited[key])
  {
    if profile !in a.profiles {
      return UnknownProfile(profile);
    }
    hide Managed, Parse, Ascending, LeftOf, Target, Renders;
    var env := ParseAll(base);
    env := ClearManaged(a, env);
    TargetBuilt(a, Parse(base), env, profile, board);
    env := env[a.boardEnv := board];
    env := Overlay(env, a.profiles[profile]);
    var keys := Keys(env);
    var sorted := SortStrings(keys);
    var result := Format(env, sorted);
    if Validated(a) {
      forall key {
        EnvironmentMeans(a, base, profile, board, result, key);
      }
    }
    return Success(result);
  }

  method ParseAll(base: seq<string>) returns (env: Env)
    ensures env == Parse(base)
  {
    env := map[];
    for i := 0 to |base|
      invariant env == Parse(base[..i])
    {
      var n := Cut(base[i]);
      assert base[..i + 1][..i] == base[..i];
      if n < |base[i]| {
        env := env[base[i][..n] := base[i][n + 1..]];
      }
    }
    assert base[..|base|] == base;
  }

  lemma OverlayMore(under: Env, selected: Env, pending: set<string>, key: string)
    requires key in pending && key in selected
    ensures Partial(under, selected, pending)[key := selected[key]] == Partial(under, selected, pending - {key})
  {
  }

  lemma OverlayEnds(under: Env, selected: Env)
    ensures Partial(under, selected, selected.Keys) == under && Partial(under, selected, {}) == under + selected
  {
    assert selected - {} == selected;
  }

  /** `under` overlaid with everything but the pending keys. */
  ghost function Partial(under: Env, selected: Env, pending: set<string>): Env {
    under + (selected - pending)
  }

  method Overlay(under: Env, selected: Env) returns (env: Env)
    ensures env == under + selected
  {
    hide Partial;
    env := under;
    var pending := selected.Keys;
    OverlayEnds(under, selected);
    while pending != {}
      invariant pending <= selected.Keys && env == Partial(under, selected, pending)
      decreases |pending|
    {
      var key :| key in pending;
      OverlayMore(under, selected, pending, key);
      env := env[key := selected[key]];
      pending := pending - {key};
    }
  }

  method Keys(env: Env) returns (keys: seq<string>)
    ensures forall key :: key in keys <==> key in env
    ensures forall i, j :: 0 <= i < j < |keys| ==> keys[i] != keys[j]
  {
    keys := [];
    var rest := env.Keys;
    while rest != {}
      invariant rest <= env.Keys
      invariant forall key :: key in keys <==> key in env && key !in rest
      invariant forall i, j :: 0 <= i < j < |keys| ==> keys[i] != keys[j]
      decreases |rest|
    {
      var key :| key in rest;
      keys := keys + [key];
      rest := rest - {key};
    }
  }

  method Format(env: Env, keys: seq<string>) returns (result: seq<string>)
    requires Ascending(keys) && forall key :: key in keys <==> key in env
    ensures Renders(result, env)
  {
    hide Ascending;
    result := [];
    for i := 0 to |keys|
      invariant |result| == i
      invariant forall j :: 0 <= j < i ==> keys[j] in env && result[j] == Entry(env, keys[j])
    {
      assert keys[i] in keys;
      result := result + [keys[i] + "=" + env[keys[i]]];
    }
    assert Lists(result, keys, env);
  }

  /** `env` is what is left of `inherited` when some keys are deleted. */
  ghost predicate LeftOf(env: Env, inherited: Env, gone: string -> bool) {
    && (forall key :: key in env <==> key in inherited && !gone(key))
    && forall key :: key in env ==> env[key] == inherited[key]
  }

  /** The three deletion loops. */
  method ClearManaged(a: Adapter, inherited: Env) returns (env: Env)
    ensures LeftOf(env, inherited, key => Managed(a, key))
  {
    env := ClearNames(a.clearEnv, inherited);
    env := ClearProfiles(a.profiles, env);
    env := env - {a.boardEnv};
  }

  method ClearNames(names: seq<string>, inherited: Env) returns (env: Env)
    ensures LeftOf(env, inherited, key => key in names)
  {
    env := inherited;
    for i := 0 to |names|
      invariant LeftOf(env, inherited, key => key in names[..i])
    {
      env := env - {names[i]};
    }
  }

  method ClearProfiles(profiles: map<string, Env>, inherited: Env) returns (env: Env)
    ensures LeftOf(env, inherited, key => exists name :: name in profiles && key in profiles[name])
  {
    env := inherited;
    var names := profiles.Keys;
    while names != {}
      invariant names <= profiles.Keys
      invariant LeftOf(env, inherited, key => exists name :: name in profiles && name !in names && key in profiles[name])
      decreases |names|
    {
      var name :| name in names;
      env := env - profiles[name].Keys;
      names := names - {name};
    }
  }
}
