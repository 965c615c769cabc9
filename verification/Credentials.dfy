/** Pinned space sessions in the credential store, and the index that lists them. */
module Credentials {
  import opened Wrappers

  // Keys.

  function SpacePrefix(origin: string): string {
    origin + "#space:"
  }

  /** `spaceCredentialKey` */
  function PinKey(origin: string, space: string, gate: string): string {
    SpacePrefix(origin) + space + "#gate:" + gate
  }

  predicate IsPin(origin: string, key: string) {
    SpacePrefix(origin) <= key
  }

  /** `legacySpaceIndexKey` */
  function LegacyKey(origin: string): string {
    origin + "#spaces"
  }

  lemma KeysApart(origin: string, key: string)
    requires IsPin(origin, key)
    ensures key != LegacyKey(origin) && key != origin
  {
    var p := SpacePrefix(origin);
    assert key[..|p|] == p;
    assert p[|origin| + 6] == ':' && LegacyKey(origin)[|origin| + 6] == 's';
    assert key[|origin| + 6] == p[|origin| + 6];
  }

  /** `tokenSessionId`: the session id inside `tm8s_<id>.<secret>`. */
  function TokenSessionId(token: string): Option<string> {
    if !("tm8s_" <= token) then None
    else
      var dot := DotAt(token);
      if dot >= |token| || dot <= 5 then None else Some(token[5..dot])
  }

  function DotAt(s: string): (i: nat)
    ensures i <= |s|
  {
    if s == [] || s[0] == '.' then 0 else 1 + DotAt(s[1..])
  }

  /** A token names the session `id` exactly when it is `tm8s_`, the id, a dot and anything. */
  lemma SessionIdExact(token: string, id: string)
    ensures TokenSessionId(token) == Some(id) <==>
      id != "" && '.' !in id && exists secret {:trigger id + ['.'] + secret} :: token == "tm8s_" + (id + ['.'] + secret)
  {
    if TokenSessionId(token) == Some(id) {
      var dot := DotAt(token);
      FirstDot(token, dot);
      assert token == "tm8s_" + (id + ['.'] + token[dot + 1..]);
      assert forall c :: c in id ==> exists i :: 5 <= i < dot && token[i] == c;
    }
    if id != "" && '.' !in id {
      forall secret | token == "tm8s_" + (id + ['.'] + secret) ensures TokenSessionId(token) == Some(id) {
        var dot := 5 + |id|;
        assert forall i :: 5 <= i < dot ==> token[i] == id[i - 5];
        assert token[5..dot] == id;
        FirstDot(token, dot);
      }
    }
  }

  lemma {:induction false} FirstDot(s: string, i: nat)
    ensures DotAt(s) == i <==> i <= |s| && '.' !in s[..i] && (i < |s| ==> s[i] == '.')
  {
    if s != [] && s[0] != '.' && i > 0 {
      FirstDot(s[1..], i - 1);
      assert i <= |s| ==> s[..i] == [s[0]] + s[1..][..i - 1];
    } else if s != [] && s[0] == '.' && 0 < i <= |s| {
      assert s[..i][0] == '.';
    }
  }

  /** A pin belongs to one space and one gate session: no other pair has its key. */
  lemma PinKeyNamesPair(origin: string, space: string, gate: string, otherSpace: string, otherGate: string)
    requires '#' !in space && '#' !in otherSpace
    ensures PinKey(origin, space, gate) == PinKey(origin, otherSpace, otherGate) <==> space == otherSpace && gate == otherGate
  {
    if PinKey(origin, space, gate) == PinKey(origin, otherSpace, otherGate) {
      var n := |SpacePrefix(origin)|;
      PinKeyParts(origin, space, gate);
      PinKeyParts(origin, otherSpace, otherGate);
      BeforeHashOf(space, "#gate:" + gate);
      BeforeHashOf(otherSpace, "#gate:" + otherGate);
      assert (space + ("#gate:" + gate))[|space| + 6..] == gate;
      assert (space + ("#gate:" + otherGate))[|space| + 6..] == otherGate;
    }
  }

  lemma PinKeyParts(origin: string, space: string, gate: string)
    ensures PinKey(origin, space, gate)[|SpacePrefix(origin)|..] == space + ("#gate:" + gate)
  {
  }

  // Lists.

  /** `s.split(',').filter(Boolean)` */
  function SplitKeys(s: string): seq<string> {
    NonEmpty(Split(s))
  }

  function Split(s: string): (r: seq<string>)
    ensures r != []
  {
    if s == [] then [[]]
    else
      var rest := Split(s[1..]);
      if s[0] == ',' then [[]] + rest else [[s[0]] + rest[0]] + rest[1..]
  }

  function NonEmpty(ks: seq<string>): (r: seq<string>)
    ensures forall k :: k in r <==> k in ks && k != ""
  {
    if ks == [] then []
    else if ks[0] == "" then NonEmpty(ks[1..])
    else [ks[0]] + NonEmpty(ks[1..])
  }

  function Without(ks: seq<string>, key: string): (r: seq<string>)
    ensures forall k :: k in r <==> k in ks && k != key
  {
    if ks == [] then []
    else if ks[0] == key then Without(ks[1..], key)
    else [ks[0]] + Without(ks[1..], key)
  }

  /** `[...new Set(ks)]` */
  function Distinct(ks: seq<string>): (r: seq<string>)
    ensures forall k :: k in r <==> k in ks
  {
    if ks == [] then [] else [ks[0]] + Without(Distinct(ks[1..]), ks[0])
  }

  /** The same keys in the order of their first places, each once. */
  lemma {:induction false} DistinctOnce(ks: seq<string>)
    ensures forall i, j :: 0 <= i < j < |Distinct(ks)| ==> Distinct(ks)[i] != Distinct(ks)[j]
    ensures ks != [] ==> Distinct(ks)[0] == ks[0]
    ensures (forall i, j :: 0 <= i < j < |ks| ==> ks[i] != ks[j]) ==> Distinct(ks) == ks
  {
    if ks != [] {
      DistinctOnce(ks[1..]);
      WithoutOnce(Distinct(ks[1..]), ks[0]);
      assert forall i, j :: 0 <= i < j < |ks[1..]| ==> ks[1..][i] == ks[i + 1] && ks[1..][j] == ks[j + 1];
    }
  }

  lemma {:induction false} WithoutOnce(ks: seq<string>, key: string)
    requires forall i, j :: 0 <= i < j < |ks| ==> ks[i] != ks[j]
    ensures forall i, j :: 0 <= i < j < |Without(ks, key)| ==> Without(ks, key)[i] != Without(ks, key)[j]
    ensures key !in ks ==> Without(ks, key) == ks
  {
    if ks != [] {
      WithoutOnce(ks[1..], key);
      assert ks[0] !in ks[1..];
    }
  }

  /** `[...keys].join(',')` */
  function Joined(keys: seq<string>): string {
    if |keys| == 0 then "" else if |keys| == 1 then keys[0] else keys[0] + [','] + Joined(keys[1..])
  }

  /** A list of keys that was joined with commas is read back, whatever empty items it holds. */
  lemma {:induction false} SplitInvertsJoined(keys: seq<string>)
    requires forall k :: k in keys ==> ',' !in k
    ensures keys != [] ==> Split(Joined(keys)) == keys
    ensures (forall k :: k in keys ==> k != "") ==> SplitKeys(Joined(keys)) == keys
  {
    if |keys| == 1 {
      SplitPlain(keys[0], "");
      assert keys[0] + "" == keys[0] && [keys[0] + ""] + [] == keys;
    } else if |keys| > 1 {
      SplitInvertsJoined(keys[1..]);
      SplitPlain(keys[0], [','] + Joined(keys[1..]));
      assert keys[0] + ([','] + Joined(keys[1..])) == Joined(keys);
      assert ([','] + Joined(keys[1..]))[1..] == Joined(keys[1..]);
      var rest := [','] + Joined(keys[1..]);
      assert Split(rest) == [""] + keys[1..];
      assert keys[0] + "" == keys[0] && ([""] + keys[1..])[1..] == keys[1..];
    }
    if forall k :: k in keys ==> k != "" {
      NonEmptyAll(keys);
    }
  }

  lemma {:induction false} SplitPlain(k: string, rest: string)
    requires ',' !in k
    ensures Split(k + rest) == [k + Split(rest)[0]] + Split(rest)[1..]
  {
    if k == "" {
      assert "" + rest == rest && "" + Split(rest)[0] == Split(rest)[0];
    } else {
      assert k[0] in k && (k + rest)[1..] == k[1..] + rest;
      SplitPlain(k[1..], rest);
      assert [k[0]] + (k[1..] + Split(rest)[0]) == k + Split(rest)[0];
    }
  }

  lemma {:induction false} NonEmptyAll(keys: seq<string>)
    requires forall k :: k in keys ==> k != ""
    ensures NonEmpty(keys) == keys
  {
    if keys != [] {
      assert keys[0] in keys && forall k :: k in keys[1..] ==> k in keys;
      NonEmptyAll(keys[1..]);
    }
  }

  // The store.

  /** Tokens by key, index by origin, and how many index operations have run. Whether the n-th
      index operation fails is up to `fails`; a failed write changes nothing. */
  datatype Store = Store(creds: map<string, string>, index: map<string, seq<string>>, ops: nat)

  function Token(s: Store, key: string): Option<string> {
    if key in s.creds && s.creds[key] != "" then Some(s.creds[key]) else None
  }

  function WithToken(s: Store, key: string, token: string): Store {
    s.(creds := s.creds[key := token])
  }

  function Deleted(s: Store, key: string): Store {
    s.(creds := s.creds - {key})
  }

  function IndexOf(s: Store, origin: string): seq<string> {
    if origin in s.index then NonEmpty(s.index[origin]) else []
  }

  function WithIndex(s: Store, origin: string, keys: seq<string>): Store {
    s.(index := if keys == [] then s.index - {origin} else s.index[origin := keys])
  }

  function Ticked(s: Store): Store {
    s.(ops := s.ops + 1)
  }

  datatype IndexRead = IndexRead(s: Store, keys: seq<string>, writable: bool)

  /** `readSpaceIndex`, with the fold of the legacy entry. */
  function ReadSpaceIndex(s: Store, origin: string, fails: nat -> bool): IndexRead {
    var writable := !fails(s.ops);
    var index := if writable then IndexOf(s, origin) else [];
    var s1 := Ticked(s);
    var legacy := Token(s1, LegacyKey(origin));
    if legacy.None? then IndexRead(s1, index, writable)
    else
      var merged := Distinct(index + SplitKeys(legacy.value));
      if !writable then IndexRead(s1, merged, false)
      else if fails(s1.ops) then IndexRead(Ticked(s1), merged, true)
      else IndexRead(Deleted(WithIndex(Ticked(s1), origin, merged), LegacyKey(origin)), merged, true)
  }

  function StoredPinKey(s: Store, origin: string, space: string): Option<string> {
    var gate := Token(s, origin);
    if gate.None? || TokenSessionId(gate.value).None? then None
    else Some(PinKey(origin, space, TokenSessionId(gate.value).value))
  }

  /** `storeSpaceCredential` */
  function PinStored(s: Store, origin: string, space: string, token: string, fails: nat -> bool): Store {
    var key := StoredPinKey(s, origin, space);
    if key.None? then s
    else
      var r := ReadSpaceIndex(WithToken(s, key.value, token), origin, fails);
      if !r.writable || key.value in r.keys then r.s
      else if fails(r.s.ops) then Ticked(r.s)
      else WithIndex(Ticked(r.s), origin, r.keys + [key.value])
  }

  /** `forgetSpaceCredential` */
  function PinForgotten(s: Store, origin: string, space: string, token: string, fails: nat -> bool): Store {
    var key := StoredPinKey(s, origin, space);
    if key.None? || Token(s, key.value) != Some(token) then s
    else
      var r := ReadSpaceIndex(Deleted(s, key.value), origin, fails);
      if !r.writable then r.s
      else if fails(r.s.ops) then Ticked(r.s)
      else WithIndex(Ticked(r.s), origin, Without(r.keys, key.value))
  }

  /** Deletes every key of the list; a deleted key yields its token once. */
  function DeletedAll(s: Store, keys: seq<string>): (Store, seq<string>)
    decreases keys
  {
    if keys == [] then (s, [])
    else
      var token := Token(s, keys[0]);
      var rest := DeletedAll(Deleted(s, keys[0]), keys[1..]);
      (rest.0, (if token.Some? then [token.value] else []) + rest.1)
  }

  /** `dropSpaceCredentials` */
  function PinsDropped(s: Store, origin: string, fails: nat -> bool): (Store, seq<string>) {
    var r := ReadSpaceIndex(s, origin, fails);
    var d := DeletedAll(r.s, r.keys);
    if !r.writable then d
    else if fails(d.0.ops) then (Ticked(d.0), d.1)
    else (WithIndex(Ticked(d.0), origin, []), d.1)
  }

  /** The store's file: absent, or tokens beside the index. An empty store is no file. */
  datatype FileShape = FileShape(credentials: map<string, string>, spaces: Option<map<string, seq<string>>>)

  class FileCredentialStore {
    var file: Option<FileShape>
    /** How many index operations have run, and which of them fail. */
    var ops: nat
    const fails: nat -> bool

    function Shape(): FileShape
      reads this
    {
      if file.Some? then file.value else FileShape(map[], None)
    }

    ghost function State(): Store
      reads this
    {
      Store(Shape().credentials, if Shape().spaces.Some? then Shape().spaces.value else map[], ops)
    }

    constructor (fails: nat -> bool)
      ensures State() == Store(map[], map[], 0) && this.fails == fails
    {
      file := None;
      ops := 0;
      this.fails := fails;
    }

    method WriteOrRemove(shape: FileShape)
      modifies this`file
      ensures Shape() == shape
      ensures shape == FileShape(map[], None) <==> file.None?
    {
      if shape.credentials == map[] && shape.spaces.None? {
        file := None;
      } else {
        file := Some(shape);
      }
    }

    method Get(key: string) returns (token: Option<string>)
      ensures token == Token(State(), key)
    {
      var shape := Shape();
      if key in shape.credentials && shape.credentials[key] != "" {
        token := Some(shape.credentials[key]);
      } else {
        token := None;
      }
    }

    method Set(key: string, token: string)
      modifies this`file
      ensures State() == WithToken(old(State()), key, token)
    {
      var shape := Shape();
      file := Some(shape.(credentials := shape.credentials[key := token]));
    }

    method Delete(key: string) returns (removed: bool)
      modifies this`file
      ensures State() == Deleted(old(State()), key)
      ensures removed <==> key in old(State()).creds
    {
      var shape := Shape();
      if key !in shape.credentials {
        assert shape.credentials - {key} == shape.credentials;
        return false;
      }
      WriteOrRemove(shape.(credentials := shape.credentials - {key}));
      removed := true;
    }

    /** Returns None where the source throws. */
    method GetSpaceIndex(origin: string) returns (keys: Option<seq<string>>)
      modifies this`ops
      ensures State() == Ticked(old(State()))
      ensures keys == if fails(old(ops)) then None else Some(IndexOf(old(State()), origin))
    {
      ops := ops + 1;
      if fails(ops - 1) {
        return None;
      }
      var shape := Shape();
      if shape.spaces.Some? && origin in shape.spaces.value {
        keys := Some(NonEmpty(shape.spaces.value[origin]));
      } else {
        keys := Some([]);
      }
    }

    /** Returns false where the source throws. */
    method SetSpaceIndex(origin: string, keys: seq<string>) returns (ok: bool)
      modifies this
      ensures ok == !fails(old(ops))
      ensures State() == if ok then WithIndex(Ticked(old(State())), origin, keys) else Ticked(old(State()))
      ensures file != old(file) ==> (file.None? <==> State().creds == map[] && State().index == map[])
    {
      ops := ops + 1;
      if fails(ops - 1) {
        return false;
      }
      ok := true;
      var shape := Shape();
      var spaces := if shape.spaces.Some? then shape.spaces.value else map[];
      if keys != [] {
        spaces := spaces[origin := keys];
      } else if origin in spaces {
        spaces := spaces - {origin};
      } else {
        assert spaces - {origin} == spaces;
        return;
      }
      WriteOrRemove(shape.(spaces := if spaces != map[] then Some(spaces) else None));
    }
  }

  method ReadIndex(store: FileCredentialStore, origin: string) returns (keys: seq<string>, writable: bool)
    modifies store
    ensures IndexRead(store.State(), keys, writable) == ReadSpaceIndex(old(store.State()), origin, store.fails)
  {
    var read := store.GetSpaceIndex(origin);
    writable := read.Some?;
    keys := if writable then read.value else [];
    var legacy := store.Get(LegacyKey(origin));
    if legacy.None? {
      return;
    }
    keys := Distinct(keys + SplitKeys(legacy.value));
    if writable {
      var ok := store.SetSpaceIndex(origin, keys);
      if ok {
        var _ := store.Delete(LegacyKey(origin));
      }
    }
  }

  method PinKeyOf(store: FileCredentialStore, origin: string, space: string) returns (key: Option<string>)
    ensures key == StoredPinKey(store.State(), origin, space)
  {
    var gate := store.Get(origin);
    if gate.None? || TokenSessionId(gate.value).None? {
      return None;
    }
    key := Some(PinKey(origin, space, TokenSessionId(gate.value).value));
  }

  /** Returns the replaced token; `stored` is false where the source throws. */
  method StoreSpaceCredential(store: FileCredentialStore, origin: string, space: string, token: string)
    returns (previous: Option<string>, stored: bool)
    modifies store
    ensures store.State() == PinStored(old(store.State()), origin, space, token, store.fails)
    ensures var s, pin := old(store.State()), StoredPinKey(old(store.State()), origin, space);
      && previous == (if pin.Some? then Token(s, pin.value) else None)
      && (stored <==> (pin.Some? && (
            || store.fails(s.ops)
            || Covered(s, origin, pin.value)
            || !store.fails(ReadSpaceIndex(WithToken(s, pin.value, token), origin, store.fails).s.ops))))
  {
    hide ReadSpaceIndex, IndexOf, SplitKeys, PinKey, TokenSessionId;
    var key := PinKeyOf(store, origin, space);
    if key.None? {
      return None, false;
    }
    previous := store.Get(key.value);
    ghost var s := store.State();
    EnterReads(s, origin, space, token, store.fails);
    store.Set(key.value, token);
    var keys, writable := ReadIndex(store, origin);
    stored := true;
    if writable && key.value !in keys {
      stored := store.SetSpaceIndex(origin, keys + [key.value]);
    }
  }

  method ForgetSpaceCredential(store: FileCredentialStore, origin: string, space: string, token: string)
    returns (removed: bool)
    modifies store
    ensures store.State() == PinForgotten(old(store.State()), origin, space, token, store.fails)
    ensures removed <==>
      StoredPinKey(old(store.State()), origin, space).Some?
      && Token(old(store.State()), StoredPinKey(old(store.State()), origin, space).value) == Some(token)
  {
    var key := PinKeyOf(store, origin, space);
    if key.None? {
      return false;
    }
    var current := store.Get(key.value);
    if current != Some(token) {
      return false;
    }
    removed := true;
    var _ := store.Delete(key.value);
    var keys, writable := ReadIndex(store, origin);
    if writable {
      var _ := store.SetSpaceIndex(origin, Without(keys, key.value));
    }
  }

  method DropSpaceCredentials(store: FileCredentialStore, origin: string) returns (tokens: seq<string>)
    modifies store
    ensures (store.State(), tokens) == PinsDropped(old(store.State()), origin, store.fails)
  {
    var keys, writable := ReadIndex(store, origin);
    tokens := [];
    ghost var s := store.State();
    assert keys[0..] == keys;
    assert [] + DeletedAll(s, keys).1 == DeletedAll(s, keys).1;
    for i := 0 to |keys|
      invariant DeletedAll(s, keys) == Prefixed(tokens, DeletedAll(store.State(), keys[i..]))
    {
      assert keys[i..][0] == keys[i] && keys[i..][1..] == keys[i + 1..];
      ghost var before, got := store.State(), tokens;
      var token := store.Get(keys[i]);
      if token.Some? {
        tokens := tokens + [token.value];
      }
      var _ := store.Delete(keys[i]);
      DeletedAllStep(before, keys[i..], got);
    }
    assert keys[|keys|..] == [] && tokens + [] == tokens;
    if writable {
      var _ := store.SetSpaceIndex(origin, []);
    }
  }

  ghost function Prefixed(tokens: seq<string>, d: (Store, seq<string>)): (Store, seq<string>) {
    (d.0, tokens + d.1)
  }

  lemma DeletedAllStep(s: Store, keys: seq<string>, got: seq<string>)
    requires keys != []
    ensures
      var token := Token(s, keys[0]);
      var now := if token.Some? then got + [token.value] else got;
      Prefixed(got, DeletedAll(s, keys)) == Prefixed(now, DeletedAll(Deleted(s, keys[0]), keys[1..]))
  {
    var rest := DeletedAll(Deleted(s, keys[0]), keys[1..]);
    var token := Token(s, keys[0]);
    if token.Some? {
      assert got + ([token.value] + rest.1) == (got + [token.value]) + rest.1;
    } else {
      assert [] + rest.1 == rest.1;
    }
  }

  // Commands. `Login` and `Logout` first drop the origin's pins.

  datatype Op =
    | Enter(space: string, token: string)
    | Refused(space: string, token: string)
    | Login(token: string)
    | Logout

  function Applied(s: Store, origin: string, op: Op, fails: nat -> bool): Store {
    match op
    case Enter(space, token) => PinStored(s, origin, space, token, fails)
    case Refused(space, token) => PinForgotten(s, origin, space, token, fails)
    case Login(token) => WithToken(PinsDropped(s, origin, fails).0, origin, token)
    case Logout => Deleted(PinsDropped(s, origin, fails).0, origin)
  }

  // No key is lost while its pin is stored.

  /** Listed in the index or in the legacy entry. */
  ghost predicate Covered(s: Store, origin: string, key: string) {
    || key in IndexOf(s, origin)
    || (Token(s, LegacyKey(origin)).Some? && key in SplitKeys(Token(s, LegacyKey(origin)).value))
  }

  lemma WithIndexExact(s: Store, origin: string, keys: seq<string>, key: string)
    ensures key in IndexOf(WithIndex(s, origin, keys), origin) <==> key in keys && key != ""
    ensures Token(WithIndex(s, origin, keys), LegacyKey(origin)) == Token(s, LegacyKey(origin))
  {
  }

  /** What reading the index does, whatever fails: it answers every covered key when the index
      could be read, changes no coverage, and removes no token but the legacy entry. */
  lemma ReadKeepsCoverage(s: Store, origin: string, fails: nat -> bool, key: string)
    ensures var r := ReadSpaceIndex(s, origin, fails);
      && (Covered(r.s, origin, key) <==> Covered(s, origin, key))
      && (r.writable ==> (key in r.keys <==> Covered(s, origin, key)))
      && (key in r.keys ==> Covered(s, origin, key))
      && (r.s.creds == s.creds || r.s.creds == s.creds - {LegacyKey(origin)})
      && (r.writable <==> !fails(s.ops))
      && (!r.writable ==> r.s == Ticked(s))
      && ((forall n :: !fails(n)) ==> Token(r.s, LegacyKey(origin)).None?)
      && s.ops < r.s.ops
  {
    hide SplitKeys, NonEmpty, Distinct;
    var index := IndexOf(s, origin);
    var legacy := Token(s, LegacyKey(origin));
    if legacy.Some? {
      var merged := Distinct(index + SplitKeys(legacy.value));
      SplitKeysNonEmpty(legacy.value);
      WithIndexExact(Ticked(Ticked(s)), origin, merged, key);
    }
  }

  lemma SplitKeysNonEmpty(s: string)
    ensures "" !in SplitKeys(s)
  {
  }

  lemma DeletedAllCreds(s: Store, keys: seq<string>)
    ensures DeletedAll(s, keys).0 == s.(creds := s.creds - (set k | k in keys))
    decreases keys
  {
    if keys == [] {
      assert s.creds - (set k | k in keys) == s.creds;
    } else {
      DeletedAllCreds(Deleted(s, keys[0]), keys[1..]);
      assert (s.creds - {keys[0]}) - (set k | k in keys[1..]) == s.creds - (set k | k in keys);
    }
  }

  /** Whatever index operations fail, one command takes no key out of index and legacy entry
      while its pin stays stored. */
  lemma NothingLost(s: Store, origin: string, op: Op, fails: nat -> bool, key: string)
    requires IsPin(origin, key) && Covered(s, origin, key)
    ensures var t := Applied(s, origin, op, fails);
      key in t.creds ==> Covered(t, origin, key)
  {
    KeysApart(origin, key);
    match op
    case Enter(space, token) => EnterLosesNothing(s, origin, space, token, fails, key);
    case Refused(space, token) => RefusedLosesNothing(s, origin, space, token, fails, key);
    case Login(_) => DropLosesNothing(s, origin, fails, key);
    case Logout => DropLosesNothing(s, origin, fails, key);
  }

  lemma EnterLosesNothing(s: Store, origin: string, space: string, token: string, fails: nat -> bool, key: string)
    requires IsPin(origin, key) && Covered(s, origin, key)
    ensures Covered(PinStored(s, origin, space, token, fails), origin, key)
  {
    hide ReadSpaceIndex, SplitKeys, NonEmpty;
    var pin := StoredPinKey(s, origin, space);
    if pin.Some? {
      KeysApart(origin, pin.value);
      var s1 := WithToken(s, pin.value, token);
      assert Covered(s1, origin, key);
      ReadKeepsCoverage(s1, origin, fails, key);
      var r := ReadSpaceIndex(s1, origin, fails);
      WithIndexExact(Ticked(r.s), origin, r.keys + [pin.value], key);
    }
  }

  lemma RefusedLosesNothing(s: Store, origin: string, space: string, token: string, fails: nat -> bool, key: string)
    requires IsPin(origin, key) && Covered(s, origin, key)
    ensures var t := PinForgotten(s, origin, space, token, fails);
      key in t.creds ==> Covered(t, origin, key)
  {
    hide ReadSpaceIndex, SplitKeys, NonEmpty;
    var pin := StoredPinKey(s, origin, space);
    if pin.Some? && Token(s, pin.value) == Some(token) {
      KeysApart(origin, pin.value);
      var s1 := Deleted(s, pin.value);
      assert Covered(s1, origin, key);
      ReadKeepsCoverage(s1, origin, fails, key);
      var r := ReadSpaceIndex(s1, origin, fails);
      WithIndexExact(Ticked(r.s), origin, Without(r.keys, pin.value), key);
    }
  }

  lemma DropLosesNothing(s: Store, origin: string, fails: nat -> bool, key: string)
    requires IsPin(origin, key) && Covered(s, origin, key)
    ensures !fails(s.ops) ==> key !in PinsDropped(s, origin, fails).0.creds
    ensures var t := PinsDropped(s, origin, fails).0;
      key in t.creds ==> key in IndexOf(t, origin)
  {
    hide SplitKeys, NonEmpty;
    ReadKeepsCoverage(s, origin, fails, key);
    var r := ReadSpaceIndex(s, origin, fails);
    DeletedAllCreds(r.s, r.keys);
  }

  // Several origins.

  predicate NoHash(origin: string) {
    '#' !in origin
  }

  function BeforeHash(key: string): string {
    if key == "" || key[0] == '#' then "" else [key[0]] + BeforeHash(key[1..])
  }

  lemma BeforeHashOf(origin: string, rest: string)
    requires NoHash(origin) && (rest == "" || rest[0] == '#')
    ensures BeforeHash(origin + rest) == origin
  {
    if origin == "" {
      assert origin + rest == rest;
    } else {
      assert (origin + rest)[1..] == origin[1..] + rest;
      BeforeHashOf(origin[1..], rest);
    }
  }

  /** The credential keys of an origin: its gate token, the legacy entry, its pins. */
  ghost predicate Owns(origin: string, key: string) {
    key == origin || key == LegacyKey(origin) || IsPin(origin, key)
  }

  lemma OwnedKeysNameTheirOrigin(origin: string, key: string)
    requires NoHash(origin) && Owns(origin, key)
    ensures BeforeHash(key) == origin
  {
    if key == origin {
      BeforeHashOf(origin, "");
      assert origin + "" == origin;
    } else if key == LegacyKey(origin) {
      BeforeHashOf(origin, "#spaces");
    } else {
      BeforeHashOf(origin, key[|origin|..]);
      assert key[..|SpacePrefix(origin)|] == SpacePrefix(origin);
      assert key[..|origin|] == origin && key[|origin|] == SpacePrefix(origin)[|origin|];
      assert origin + key[|origin|..] == key;
    }
  }

  /** Every listed key is a pin of the origin. */
  ghost predicate ListsPins(s: Store, origin: string) {
    forall key :: Covered(s, origin, key) ==> IsPin(origin, key)
  }

  /** Every stored pin is listed. */
  ghost predicate Complete(s: Store, origin: string) {
    forall key :: key in s.creds && IsPin(origin, key) ==> Covered(s, origin, key)
  }

  /** What a command at one origin leaves alone. */
  ghost predicate SameElsewhere(s: Store, t: Store, origin: string) {
    && (forall key :: !Owns(origin, key) ==> (key in t.creds <==> key in s.creds))
    && (forall key :: !Owns(origin, key) && key in s.creds ==> t.creds[key] == s.creds[key])
    && s.index - {origin} == t.index - {origin}
  }

  lemma ReadSameElsewhere(s: Store, origin: string, fails: nat -> bool)
    ensures SameElsewhere(s, ReadSpaceIndex(s, origin, fails).s, origin)
  {
    hide SplitKeys, NonEmpty, Distinct;
  }

  lemma CommandSameElsewhere(s: Store, origin: string, op: Op, fails: nat -> bool)
    requires ListsPins(s, origin)
    ensures SameElsewhere(s, Applied(s, origin, op, fails), origin)
  {
    hide PinStored, PinForgotten, PinsDropped, ListsPins;
    match op
    case Enter(space, token) => EnterSameElsewhere(s, origin, space, token, fails);
    case Refused(space, token) => RefusedSameElsewhere(s, origin, space, token, fails);
    case Login(_) => DropSameElsewhere(s, origin, fails);
    case Logout => DropSameElsewhere(s, origin, fails);
  }

  lemma EnterSameElsewhere(s: Store, origin: string, space: string, token: string, fails: nat -> bool)
    ensures SameElsewhere(s, PinStored(s, origin, space, token, fails), origin)
  {
    hide ReadSpaceIndex, Token;
    var pin := StoredPinKey(s, origin, space);
    if pin.Some? {
      ReadSameElsewhere(WithToken(s, pin.value, token), origin, fails);
    }
  }

  lemma RefusedSameElsewhere(s: Store, origin: string, space: string, token: string, fails: nat -> bool)
    ensures SameElsewhere(s, PinForgotten(s, origin, space, token, fails), origin)
  {
    hide ReadSpaceIndex, Token, Without;
    var pin := StoredPinKey(s, origin, space);
    if pin.Some? {
      ReadSameElsewhere(Deleted(s, pin.value), origin, fails);
    }
  }

  lemma DropSameElsewhere(s: Store, origin: string, fails: nat -> bool)
    requires ListsPins(s, origin)
    ensures SameElsewhere(s, PinsDropped(s, origin, fails).0, origin)
  {
    hide SplitKeys, NonEmpty, ReadSpaceIndex, Token, Covered;
    var r := ReadSpaceIndex(s, origin, fails);
    ReadSameElsewhere(s, origin, fails);
    forall key | key in r.keys ensures Owns(origin, key) {
      ReadKeepsCoverage(s, origin, fails, key);
    }
    DeletedAllCreds(r.s, r.keys);
  }

  lemma ElsewhereKept(s: Store, t: Store, here: string, there: string, key: string)
    requires NoHash(here) && NoHash(there) && here != there
    requires SameElsewhere(s, t, here)
    ensures Covered(t, there, key) <==> Covered(s, there, key)
    ensures Owns(there, key) ==> Token(t, key) == Token(s, key) && (key in t.creds <==> key in s.creds)
  {
    hide SplitKeys, NonEmpty, IsPin, LegacyKey;
    forall k | Owns(there, k) ensures !Owns(here, k) {
      OwnedKeysNameTheirOrigin(there, k);
      if Owns(here, k) {
        OwnedKeysNameTheirOrigin(here, k);
      }
    }
    assert Owns(there, LegacyKey(there));
    assert there in t.index - {here} <==> there in t.index;
    assert there in s.index - {here} <==> there in s.index;
    assert there in s.index ==> (s.index - {here})[there] == s.index[there];
    assert there in t.index ==> (t.index - {here})[there] == t.index[there];
  }

  /** Whatever fails, a command lists nothing but pins. */
  lemma ListsPinsKept(s: Store, origin: string, op: Op, fails: nat -> bool)
    requires ListsPins(s, origin)
    ensures ListsPins(Applied(s, origin, op, fails), origin)
  {
    var t := Applied(s, origin, op, fails);
    forall key | Covered(t, origin, key) ensures IsPin(origin, key) {
      ListedWasListed(s, origin, op, fails, key);
    }
  }

  /** A command lists a new key only by entering its space. */
  lemma ListedWasListed(s: Store, origin: string, op: Op, fails: nat -> bool, key: string)
    requires ListsPins(s, origin) && Covered(Applied(s, origin, op, fails), origin, key)
    ensures Covered(s, origin, key)
      || (op.Enter? && StoredPinKey(s, origin, op.space) == Some(key))
  {
    hide SplitKeys, NonEmpty, ReadSpaceIndex;
    match op
    case Enter(space, token) =>
      var pin := StoredPinKey(s, origin, space);
      if pin.Some? {
        KeysApart(origin, pin.value);
        var s1 := WithToken(s, pin.value, token);
        ReadKeepsCoverage(s1, origin, fails, key);
        var r := ReadSpaceIndex(s1, origin, fails);
        WithIndexExact(Ticked(r.s), origin, r.keys + [pin.value], key);
      }
    case Refused(space, token) =>
      var pin := StoredPinKey(s, origin, space);
      if pin.Some? {
        KeysApart(origin, pin.value);
        var s1 := Deleted(s, pin.value);
        ReadKeepsCoverage(s1, origin, fails, key);
        var r := ReadSpaceIndex(s1, origin, fails);
        WithIndexExact(Ticked(r.s), origin, Without(r.keys, pin.value), key);
      }
    case Login(_) => DropListsLess(s, origin, fails, key);
    case Logout => DropListsLess(s, origin, fails, key);
  }

  lemma DropListsLess(s: Store, origin: string, fails: nat -> bool, key: string)
    ensures Covered(PinsDropped(s, origin, fails).0, origin, key) ==> Covered(s, origin, key)
  {
    hide SplitKeys, NonEmpty, ReadSpaceIndex;
    ReadKeepsCoverage(s, origin, fails, key);
    var r := ReadSpaceIndex(s, origin, fails);
    DeletedAllCreds(r.s, r.keys);
    WithIndexExact(Ticked(DeletedAll(r.s, r.keys).0), origin, [], key);
  }

  // Runs.

  /** The store after a sequence of commands, each at its own origin. */
  function Ran(s: Store, ops: seq<(string, Op)>, fails: nat -> bool): Store {
    if ops == [] then s
    else
      var last := |ops| - 1;
      Applied(Ran(s, ops[..last], fails), ops[last].0, ops[last].1, fails)
  }

  /** Stored after every command. */
  ghost predicate StoredThroughout(s: Store, ops: seq<(string, Op)>, fails: nat -> bool, key: string) {
    && key in Ran(s, ops, fails).creds
    && (ops != [] ==> StoredThroughout(s, ops[..|ops| - 1], fails, key))
  }

  ghost predicate Origins(ops: seq<(string, Op)>) {
    forall i :: 0 <= i < |ops| ==> NoHash(ops[i].0)
  }

  ghost predicate AllListPins(s: Store) {
    forall origin :: NoHash(origin) ==> ListsPins(s, origin)
  }

  lemma AllListPinsKept(s: Store, here: string, op: Op, fails: nat -> bool)
    requires NoHash(here) && AllListPins(s)
    ensures AllListPins(Applied(s, here, op, fails))
  {
    hide Applied, SameElsewhere, Covered, IsPin;
    var t := Applied(s, here, op, fails);
    ListsPinsKept(s, here, op, fails);
    CommandSameElsewhere(s, here, op, fails);
    forall there, key | NoHash(there) && there != here && Covered(t, there, key) ensures IsPin(there, key) {
      ElsewhereKept(s, t, here, there, key);
    }
  }

  /** Over every run of commands at any origins and every pattern of index failures, a listed
      pin that stays stored stays listed. */
  lemma {:induction false} RunLosesNothing(
    s: Store, ops: seq<(string, Op)>, fails: nat -> bool, origin: string, key: string)
    requires Origins(ops) && AllListPins(s)
    requires NoHash(origin) && IsPin(origin, key) && Covered(s, origin, key)
    requires StoredThroughout(s, ops, fails, key)
    ensures Covered(Ran(s, ops, fails), origin, key) && AllListPins(Ran(s, ops, fails))
  {
    hide Applied, SameElsewhere, Covered, IsPin, AllListPins;
    if ops != [] {
      var last := |ops| - 1;
      var before, here, op := Ran(s, ops[..last], fails), ops[last].0, ops[last].1;
      RunLosesNothing(s, ops[..last], fails, origin, key);
      AllListPinsKept(before, here, op, fails);
      if here == origin {
        NothingLost(before, origin, op, fails, key);
      } else {
        assert ListsPins(before, here) by {
          AllListPinsAt(before, here);
        }
        CommandSameElsewhere(before, here, op, fails);
        ElsewhereKept(before, Applied(before, here, op, fails), here, origin, key);
      }
    }
  }

  lemma AllListPinsAt(s: Store, origin: string)
    requires AllListPins(s) && NoHash(origin)
    ensures ListsPins(s, origin)
  {
  }

  // Without index failures.

  predicate Never(n: nat) {
    false
  }

  /** A newly stored pin is listed exactly when it was listed already or neither the index read
      nor the index write fails. */
  lemma EnterLists(s: Store, origin: string, space: string, token: string, fails: nat -> bool)
    requires StoredPinKey(s, origin, space).Some?
    ensures
      var key := StoredPinKey(s, origin, space).value;
      var write := ReadSpaceIndex(WithToken(s, key, token), origin, fails).s.ops;
      Covered(PinStored(s, origin, space, token, fails), origin, key)
      <==> Covered(s, origin, key) || (!fails(s.ops) && !fails(write))
  {
    hide SplitKeys, NonEmpty, ReadSpaceIndex;
    var key := StoredPinKey(s, origin, space).value;
    assert IsPin(origin, key);
    KeysApart(origin, key);
    var s1 := WithToken(s, key, token);
    assert Covered(s1, origin, key) <==> Covered(s, origin, key);
    ReadKeepsCoverage(s1, origin, fails, key);
    var r := ReadSpaceIndex(s1, origin, fails);
    WithIndexExact(Ticked(r.s), origin, r.keys + [key], key);
  }

  /** Reading the index after the pin was written: the pin is among the keys exactly when it was
      listed before. */
  lemma EnterReads(s: Store, origin: string, space: string, token: string, fails: nat -> bool)
    requires StoredPinKey(s, origin, space).Some?
    ensures
      var key := StoredPinKey(s, origin, space).value;
      var r := ReadSpaceIndex(WithToken(s, key, token), origin, fails);
      (r.writable <==> !fails(s.ops)) && (r.writable ==> (key in r.keys <==> Covered(s, origin, key)))
  {
    hide SplitKeys, NonEmpty, ReadSpaceIndex;
    var key := StoredPinKey(s, origin, space).value;
    KeysApart(origin, key);
    var s1 := WithToken(s, key, token);
    assert Covered(s1, origin, key) <==> Covered(s, origin, key);
    ReadKeepsCoverage(s1, origin, fails, key);
  }

  /** What entering a space and a refusal do to the tokens, under every failure pattern: under a
      gate session `id` one key is written, or deleted if it still holds the refused token. */
  lemma TokensChange(s: Store, origin: string, space: string, token: string, id: string, secret: string, fails: nat -> bool)
    requires id != "" && '.' !in id && Token(s, origin) == Some("tm8s_" + (id + ['.'] + secret))
    ensures
      var key, legacy := origin + "#space:" + space + "#gate:" + id, origin + "#spaces";
      var entered := PinStored(s, origin, space, token, fails);
      var refused := PinForgotten(s, origin, space, token, fails);
      && entered.creds - {legacy} == s.creds[key := token] - {legacy}
      && refused.creds - {legacy} == (if Token(s, key) == Some(token) then s.creds - {key, legacy} else s.creds - {legacy})
  {
    hide SplitKeys, NonEmpty, ReadSpaceIndex, TokenSessionId, Distinct;
    var key := origin + "#space:" + space + "#gate:" + id;
    SessionIdExact(Token(s, origin).value, id);
    assert StoredPinKey(s, origin, space) == Some(key);
    ReadKeepsCoverage(WithToken(s, key, token), origin, fails, key);
    ReadKeepsCoverage(Deleted(s, key), origin, fails, key);
  }

  /** Without a gate session neither does anything. */
  lemma NothingWithoutGate(s: Store, origin: string, space: string, token: string, fails: nat -> bool)
    requires forall id, secret {:trigger id + ['.'] + secret} ::
      id != "" && '.' !in id ==> Token(s, origin) != Some("tm8s_" + (id + ['.'] + secret))
    ensures PinStored(s, origin, space, token, fails) == s && PinForgotten(s, origin, space, token, fails) == s
  {
    hide ReadSpaceIndex, TokenSessionId;
    if Token(s, origin).Some? && TokenSessionId(Token(s, origin).value).Some? {
      SessionIdExact(Token(s, origin).value, TokenSessionId(Token(s, origin).value).value);
    }
  }

  /** The command enters the space of this pin at its origin, and both index operations succeed. */
  ghost predicate Lists(s: Store, at: string, op: Op, fails: nat -> bool, origin: string, key: string) {
    && at == origin && op.Enter? && StoredPinKey(s, origin, op.space) == Some(key)
    && !fails(s.ops)
    && !fails(ReadSpaceIndex(WithToken(s, key, op.token), origin, fails).s.ops)
  }

  /** After a command that leaves a pin stored, the pin is listed exactly when it was or the command
      lists it. */
  lemma CommandLists(s: Store, at: string, op: Op, fails: nat -> bool, origin: string, key: string)
    requires NoHash(at) && NoHash(origin) && IsPin(origin, key) && ListsPins(s, at) && ListsPins(s, origin)
    requires key in Applied(s, at, op, fails).creds
    ensures Covered(Applied(s, at, op, fails), origin, key)
      <==> Covered(s, origin, key) || Lists(s, at, op, fails, origin, key)
  {
    hide Covered, ReadSpaceIndex, IsPin, Applied, StoredPinKey, SameElsewhere;
    if at != origin {
      CommandSameElsewhere(s, at, op, fails);
      ElsewhereKept(s, Applied(s, at, op, fails), at, origin, key);
    } else {
      if Covered(s, origin, key) {
        NothingLost(s, origin, op, fails, key);
      } else if Covered(Applied(s, origin, op, fails), origin, key) {
        ListedWasListed(s, origin, op, fails, key);
      }
      if op.Enter? && StoredPinKey(s, origin, op.space) == Some(key) {
        EnterLists(s, origin, op.space, op.token, fails);
        AppliedEnter(s, origin, op, fails);
      }
    }
  }

  lemma AppliedEnter(s: Store, origin: string, op: Op, fails: nat -> bool)
    requires op.Enter?
    ensures Applied(s, origin, op, fails) == PinStored(s, origin, op.space, op.token, fails)
  {
  }

  /** Stored after each of the commands. */
  ghost predicate StoredAfterEach(s: Store, ops: seq<(string, Op)>, fails: nat -> bool, key: string) {
    forall n :: 0 < n <= |ops| ==> key in Ran(s, ops[..n], fails).creds
  }

  ghost predicate ListedAt(s: Store, ops: seq<(string, Op)>, fails: nat -> bool, origin: string, key: string, i: nat) {
    i < |ops| && Lists(Ran(s, ops[..i], fails), ops[i].0, ops[i].1, fails, origin, key)
  }

  /** Over every run and every pattern of index failures, a pin that stays stored is unlisted at the
      end if and only if it was not listed at first and one of the two index operations failed in
      each command that entered its space. */
  lemma {:induction false} RunLists(
    s: Store, ops: seq<(string, Op)>, fails: nat -> bool, origin: string, key: string)
    requires Origins(ops) && AllListPins(s) && NoHash(origin) && IsPin(origin, key)
    requires StoredAfterEach(s, ops, fails, key)
    ensures AllListPins(Ran(s, ops, fails))
    ensures Covered(Ran(s, ops, fails), origin, key)
      <==> Covered(s, origin, key) || exists i: nat :: ListedAt(s, ops, fails, origin, key, i)
    decreases |ops|
  {
    hide Applied, Covered, IsPin, AllListPins, Lists, Ran;
    if ops == [] {
      RanNothing(s, fails);
    } else {
      var last := |ops| - 1;
      var front, here, op := ops[..last], ops[last].0, ops[last].1;
      var before := Ran(s, front, fails);
      RanLast(s, ops, fails);
      forall n | 0 < n <= |front| ensures key in Ran(s, front[..n], fails).creds {
        assert front[..n] == ops[..n];
      }
      RunLists(s, front, fails, origin, key);
      AllListPinsKept(before, here, op, fails);
      AllListPinsAt(before, here);
      AllListPinsAt(before, origin);
      assert ops[..|ops|] == ops;
      CommandLists(before, here, op, fails, origin, key);
      forall i: nat | i < last ensures ListedAt(s, ops, fails, origin, key, i) <==> ListedAt(s, front, fails, origin, key, i) {
        assert front[..i] == ops[..i];
      }
      assert ListedAt(s, ops, fails, origin, key, last) <==> Lists(before, here, op, fails, origin, key);
    }
  }

  lemma RanNothing(s: Store, fails: nat -> bool)
    ensures Ran(s, [], fails) == s
  {
  }

  lemma RanLast(s: Store, ops: seq<(string, Op)>, fails: nat -> bool)
    requires ops != []
    ensures var last := |ops| - 1;
      Ran(s, ops, fails) == Applied(Ran(s, ops[..last], fails), ops[last].0, ops[last].1, fails)
  {
  }

  lemma CompleteKept(s: Store, origin: string, op: Op)
    requires Complete(s, origin)
    ensures Complete(Applied(s, origin, op, Never), origin)
  {
    hide Covered, SplitKeys, NonEmpty, ReadSpaceIndex, IsPin;
    var t := Applied(s, origin, op, Never);
    forall key | key in t.creds && IsPin(origin, key) ensures Covered(t, origin, key) {
      if key in s.creds {
        NothingLost(s, origin, op, Never, key);
      } else {
        StoredOnlyByEnter(s, origin, op, Never, key);
        EnterLists(s, origin, op.space, op.token, Never);
      }
    }
  }

  lemma StoredOnlyByEnter(s: Store, origin: string, op: Op, fails: nat -> bool, key: string)
    requires IsPin(origin, key) && key !in s.creds && key in Applied(s, origin, op, fails).creds
    ensures op.Enter? && StoredPinKey(s, origin, op.space) == Some(key)
  {
    hide SplitKeys, NonEmpty, ReadSpaceIndex, Covered, IsPin, Token;
    KeysApart(origin, key);
    match op
    case Enter(space, token) =>
      var pin := StoredPinKey(s, origin, space);
      if pin.Some? {
        ReadKeepsCoverage(WithToken(s, pin.value, token), origin, fails, key);
      }
    case Refused(space, token) =>
      var pin := StoredPinKey(s, origin, space);
      if pin.Some? {
        ReadKeepsCoverage(Deleted(s, pin.value), origin, fails, key);
      }
    case Login(_) => DropStoresNothing(s, origin, fails, key);
    case Logout => DropStoresNothing(s, origin, fails, key);
  }

  lemma DropStoresNothing(s: Store, origin: string, fails: nat -> bool, key: string)
    requires key !in s.creds
    ensures key !in PinsDropped(s, origin, fails).0.creds
  {
    hide SplitKeys, NonEmpty, ReadSpaceIndex, Covered;
    ReadKeepsCoverage(s, origin, fails, key);
    var r := ReadSpaceIndex(s, origin, fails);
    DeletedAllCreds(r.s, r.keys);
  }

  /** Every origin lists its stored pins, and only pins. */
  ghost predicate Exact(s: Store) {
    AllListPins(s) && forall origin :: NoHash(origin) ==> Complete(s, origin)
  }

  lemma {:induction false} RunStaysExact(s: Store, ops: seq<(string, Op)>)
    requires Origins(ops) && Exact(s)
    ensures Exact(Ran(s, ops, Never))
  {
    hide Applied, SameElsewhere, Covered, IsPin;
    if ops != [] {
      var last := |ops| - 1;
      var before, here, op := Ran(s, ops[..last], Never), ops[last].0, ops[last].1;
      var after := Applied(before, here, op, Never);
      RunStaysExact(s, ops[..last]);
      AllListPinsKept(before, here, op, Never);
      CompleteKept(before, here, op);
      CommandSameElsewhere(before, here, op, Never);
      forall there, key | NoHash(there) && there != here && key in after.creds && IsPin(there, key)
        ensures Covered(after, there, key)
      {
        ElsewhereKept(before, after, here, there, key);
      }
    }
  }

  // What dropping the pins returns.

  /** The keys that yield a token, each once. */
  function LiveKeys(s: Store, keys: seq<string>): seq<string>
    decreases keys
  {
    if keys == [] then []
    else (if Token(s, keys[0]).Some? then [keys[0]] else []) + LiveKeys(Deleted(s, keys[0]), keys[1..])
  }

  ghost predicate TokensOf(s: Store, keys: seq<string>, tokens: seq<string>) {
    && |tokens| == |keys|
    && forall i :: 0 <= i < |keys| ==> Token(s, keys[i]) == Some(tokens[i])
  }

  ghost predicate NoRepeats(keys: seq<string>) {
    forall i, j :: 0 <= i < j < |keys| ==> keys[i] != keys[j]
  }

  lemma {:induction false} LiveKeysOnce(s: Store, keys: seq<string>)
    ensures forall key :: key in LiveKeys(s, keys) <==> key in keys && Token(s, key).Some?
    ensures NoRepeats(LiveKeys(s, keys))
    decreases keys
  {
    if keys != [] {
      LiveKeysOnce(Deleted(s, keys[0]), keys[1..]);
      var rest := LiveKeys(Deleted(s, keys[0]), keys[1..]);
      assert keys[0] !in rest;
      forall i | 0 <= i < |rest| ensures rest[i] != keys[0] {
        assert rest[i] in rest;
      }
    }
  }

  lemma {:induction false} LiveKeysYield(s: Store, keys: seq<string>)
    ensures TokensOf(s, LiveKeys(s, keys), DeletedAll(s, keys).1)
    decreases keys
  {
    hide Token, Deleted;
    if keys != [] {
      var rest := Deleted(s, keys[0]);
      LiveKeysYield(rest, keys[1..]);
      LiveKeysOnce(rest, keys[1..]);
      var live, tokens := LiveKeys(rest, keys[1..]), DeletedAll(rest, keys[1..]).1;
      forall i | 0 <= i < |live| ensures Token(s, live[i]) == Some(tokens[i]) {
        TokenLeft(s, keys[0], live[i]);
      }
    }
  }

  lemma TokenLeft(s: Store, gone: string, key: string)
    requires Token(Deleted(s, gone), key).Some?
    ensures Token(s, key) == Token(Deleted(s, gone), key)
  {
  }

  ghost predicate RevokesEveryPin(s: Store, origin: string, dropped: (Store, seq<string>)) {
    && (exists live: seq<string> ::
        && NoRepeats(live)
        && (forall key :: key in live <==> IsPin(origin, key) && Token(s, key).Some?)
        && TokensOf(s, live, dropped.1))
    && (forall key :: IsPin(origin, key) ==> key !in dropped.0.creds)
    && origin !in dropped.0.index
    && Token(dropped.0, LegacyKey(origin)).None?
  }

  lemma DropRevokesEveryPin(s: Store, origin: string)
    requires ListsPins(s, origin) && Complete(s, origin)
    ensures RevokesEveryPin(s, origin, PinsDropped(s, origin, Never))
  {
    hide IsPin, Covered, ReadSpaceIndex, LegacyKey, NonEmpty;
    var r := ReadSpaceIndex(s, origin, Never);
    ReadKeepsCoverage(s, origin, Never, "");
    DeletedAllCreds(r.s, r.keys);
    LiveKeysOnce(r.s, r.keys);
    LiveKeysYield(r.s, r.keys);
    var live := LiveKeys(r.s, r.keys);
    var after := PinsDropped(s, origin, Never).0;
    forall key
      ensures IsPin(origin, key) ==> Token(r.s, key) == Token(s, key) && key !in after.creds
      ensures key in r.keys ==> IsPin(origin, key)
      ensures key in live <==> IsPin(origin, key) && Token(s, key).Some?
    {
      ReadKeepsCoverage(s, origin, Never, key);
      if IsPin(origin, key) {
        KeysApart(origin, key);
      }
    }
  }

  /** After any run without index failures, logging out of an origin returns the token of every
      live pin of that origin once, and no other token, and leaves neither pin, index entry nor
      legacy entry. */
  lemma LogoutRevokesEveryPin(s: Store, ops: seq<(string, Op)>, origin: string)
    requires Origins(ops) && Exact(s) && NoHash(origin)
    ensures var before := Ran(s, ops, Never);
      RevokesEveryPin(before, origin, PinsDropped(before, origin, Never))
  {
    hide IsPin, Covered, ReadSpaceIndex, Ran, LegacyKey, RevokesEveryPin;
    RunStaysExact(s, ops);
    DropRevokesEveryPin(Ran(s, ops, Never), origin);
  }

  /** The store of a first install meets the hypothesis. */
  lemma EmptyIsExact()
    ensures Exact(Store(map[], map[], 0))
  {
  }

  /** A pin that is not listed outlives every logout and login, even when nothing fails. */
  lemma UnlistedPinSurvives(s: Store, origin: string, fails: nat -> bool, key: string)
    requires IsPin(origin, key) && !Covered(s, origin, key)
    ensures Token(PinsDropped(s, origin, fails).0, key) == Token(s, key)
  {
    hide Covered, ReadSpaceIndex, NonEmpty, SplitKeys;
    KeysApart(origin, key);
    ReadKeepsCoverage(s, origin, fails, key);
    var r := ReadSpaceIndex(s, origin, fails);
    DeletedAllCreds(r.s, r.keys);
  }

  /** Such a pin is left by one failed index write as its space is entered. */
  lemma OneFailedWriteLosesPin()
    ensures
      var s := Store(map["o" := "tm8s_a.b"], map[], 0);
      var key := PinKey("o", "x", "a");
      var entered := Applied(s, "o", Enter("x", "t"), n => n == 1);
      Token(entered, key) == Some("t") && !Covered(entered, "o", key)
  {
    hide TokenSessionId, SplitKeys;
    var s := Store(map["o" := "tm8s_a.b"], map[], 0);
    var key := PinKey("o", "x", "a");
    KeysApart("o", key);
    GateSession();
    var s1 := WithToken(s, key, "t");
    assert Token(s1, LegacyKey("o")).None?;
    assert ReadSpaceIndex(s1, "o", n => n == 1) == IndexRead(Ticked(s1), [], true);
  }

  lemma GateSession()
    ensures TokenSessionId("tm8s_a.b") == Some("a")
  {
    var t := "tm8s_a.b";
    assert t[1..] == "m8s_a.b" && "m8s_a.b"[1..] == "8s_a.b" && "8s_a.b"[1..] == "s_a.b";
    assert "s_a.b"[1..] == "_a.b" && "_a.b"[1..] == "a.b" && "a.b"[1..] == ".b";
    assert DotAt("a.b") == 1 && DotAt("_a.b") == 2 && DotAt("s_a.b") == 3;
    assert DotAt("8s_a.b") == 4 && DotAt("m8s_a.b") == 5 && DotAt(t) == 6;
    assert t[5..6] == "a";
  }
}
