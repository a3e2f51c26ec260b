/**
 * Credential-store resolution: the store file, the choice of identifier, the
 * server check, the interactive prompt and the upsert written back to the file.
 *
 * The store file is a YAML list of single-key mappings
 * `[{cfg1: {url: .., username: .., password: ..}}, {cfg2: ..}]`; in memory it
 * is an ordered map from identifier to entry.
 */
module Credentials {
  import opened Wrappers
  import opened OrderedMap

  /** The mapping stored under one identifier; a key missing from it reads as `None`. */
  datatype Entry = Entry(url: Option<string>, username: Option<string>, password: Option<string>)

  type Id = string

  /** One YAML mapping of the store file, its pairs in file order. */
  type Mapping = Pairs<Id, Entry>

  /** What reading the store file gives. */
  datatype StoreFile =
    | Missing                        // no such file
    | Blank                          // the document is null or another false value: `{}`, `[]`, `false`, `0`, `''`
    | Malformed                      // the YAML parser raises
    | Document(items: seq<Mapping>)  // a top-level list of mappings

  /** The process result: the credentials handed back, or the exit status. */
  datatype Outcome = Resolved(creds: Entry) | Exit(status: int)

  /**
   * The server, as one request finds it: the request URL, the user name and
   * the stored (base64) password give the HTTP status, or `None` when the
   * request raises (connection failure, a password that does not decode, ...).
   */
  type Server = (string, string, string) -> Option<int>

  /** The environment variables the prompt takes its defaults from. */
  datatype Env = Env(jenkinsUrl: Option<string>, user: Option<string>)

  /** What the operator types at the three prompts; `None` when input ends first. */
  datatype Answers = Answers(url: Option<string>, username: Option<string>, secret: Option<string>)

  const CheckPath: string := "/api/json"
  const FallbackId: Id := "default"
  const NoEntry: Entry := Entry(None, None, None)

  /** `jenkins_configs`: the list of mappings read from the file, empty when there is none. */
  function LoadItems(f: StoreFile): (r: Result<seq<Mapping>, string>)
    ensures r.Err? <==> f.Malformed?
  {
    match f
    case Missing => Ok([])
    case Blank => Ok([])
    case Malformed => Err("malformed credential store")
    case Document(items) => Ok(items)
  }

  /**
   * The effective identifier: the given one when it is non-empty, else the first
   * key of the store when that is non-empty, else "default".
   */
  function SelectId(given: Option<string>, m: Mapping): (id: Id)
    ensures id != ""
    ensures Truthy(given) ==> id == given.value
    ensures !Truthy(given) && id != FallbackId ==> m != [] && id == m[0].0
  {
    if Truthy(given) then given.value
    else if m != [] && m[0].0 != "" then m[0].0
    else FallbackId
  }

  /** The stored entry, or one with every value absent when the identifier is not stored. */
  function Lookup(m: Mapping, id: Id): (e: Entry)
    ensures !HasKey(m, id) ==> e == NoEntry
    ensures UniqueKeys(m) ==> forall i :: 0 <= i < |m| && m[i].0 == id ==> e == m[i].1
  {
    match Get(m, id)
    case None => NoEntry
    case Some(e) => e
  }

  /**
   * `jenkins_check_config`: the url, user name and password must all be present
   * and non-empty, and a GET of `/api/json` must answer 200.
   */
  predicate Check(e: Entry, server: Server)
  {
    && Truthy(e.url) && Truthy(e.username) && Truthy(e.password)
    && server(e.url.value + CheckPath, e.username.value, e.password.value) == Some(200)
  }

  /** One prompt: a non-empty answer, else the default shown in brackets. */
  function Answer(typed: string, default: Option<string>): (r: Option<string>)
    ensures typed != "" ==> r == Some(typed)
    ensures typed == "" ==> r == default
  {
    if typed != "" then Some(typed) else default
  }

  /**
   * The prompt step: the url and user name default to the previous values when
   * those are non-empty, else to `JENKINS_URL` and `USER`; the password stored
   * is the encoding of the typed secret.  `None` when input ends at a prompt.
   */
  function Prompted(prev: Entry, env: Env, ans: Answers, encode: string -> string): (r: Option<Entry>)
    ensures r.None? <==> ans.url.None? || ans.username.None? || ans.secret.None?
    ensures r.Some? ==> r.value.password == Some(encode(ans.secret.value))
  {
    if ans.url.None? || ans.username.None? || ans.secret.None? then None
    else
      var defUrl := if Truthy(prev.url) then prev.url else env.jenkinsUrl;
      var defUser := if Truthy(prev.username) then prev.username else env.user;
      Some(Entry(Answer(ans.url.value, defUrl), Answer(ans.username.value, defUser),
                 Some(encode(ans.secret.value))))
  }

  /** The in-memory store: an ordered map from identifier to entry, updated in place. */
  class Store {
    var entries: Mapping

    /** Identifiers are unique, as in the `OrderedDict` the store lives in. */
    predicate Valid()
      reads this
    {
      UniqueKeys(entries)
    }

    /** Build the store from the file's list of mappings, left to right. */
    constructor (items: seq<Mapping>)
      ensures Valid() && entries == Flatten(items)
    {
      entries := Flatten(items);
    }

    /** The entry stored under `id`, or one with every value absent. */
    function Find(id: Id): (e: Entry)
      reads this
      requires Valid()
      ensures !HasKey(entries, id) ==> e == NoEntry
      ensures forall i :: 0 <= i < |entries| && entries[i].0 == id ==> e == entries[i].1
    {
      Lookup(entries, id)
    }

    /** Assign the entry to the identifier: overwrite in place or append. */
    method Upsert(id: Id, e: Entry)
      requires Valid()
      modifies this
      ensures Valid()
      ensures entries == Put(old(entries), id, e)
    {
      entries := Put(entries, id, e);
    }

    /** The list of single-key mappings handed to the writer, in store order. */
    function Items(): (items: seq<Mapping>)
      reads this
      requires Valid()
      ensures Flatten(items) == entries
    {
      FlattenSerialise(entries);
      Serialise(entries)
    }
  }

  /**
   * `jenkins_config`: load, select, check; on failure prompt, check again and,
   * on success only, upsert and write the store.  `written` is the list of
   * mappings handed to the file writer, if any.  The two checks are separate
   * requests: `first` and `second` are the server as each of them finds it, so
   * a failure of the first (the network down, say) can be followed by success.
   */
  method Resolve(file: StoreFile, given: Option<string>, env: Env, ans: Answers,
                 first: Server, second: Server, encode: string -> string)
    returns (outcome: Outcome, written: Option<seq<Mapping>>)
    ensures file.Malformed? ==> outcome == Exit(1) && written == None
    ensures !file.Malformed? ==>
      var m := Flatten(LoadItems(file).value);
      var id := SelectId(given, m);
      var found := Lookup(m, id);
      if Check(found, first) then
        outcome == Resolved(found) && written == None
      else if Prompted(found, env, ans, encode).Some? && Check(Prompted(found, env, ans, encode).value, second) then
        outcome == Resolved(Prompted(found, env, ans, encode).value)
        && written == Some(Serialise(Put(m, id, outcome.creds)))
      else
        outcome == Exit(1) && written == None
    // the credentials handed back always passed the check they were given to
    ensures outcome.Resolved? ==> Check(outcome.creds, first) || Check(outcome.creds, second)
    // nothing is written unless resolution succeeds, and what is written reads
    // back as the old store with the new entry upserted
    ensures written.Some? ==> outcome.Resolved? && !file.Malformed?
    ensures written.Some? ==>
      var m := Flatten(LoadItems(file).value);
      Flatten(written.value) == Put(m, SelectId(given, m), outcome.creds)
  {
    var loaded := LoadItems(file);
    if loaded.Err? {
      return Exit(1), None;
    }
    var store := new Store(loaded.value);
    var id := SelectId(given, store.entries);
    var found := store.Find(id);
    if Check(found, first) {
      return Resolved(found), None;
    }
    var typed := Prompted(found, env, ans, encode);
    if typed.None? || !Check(typed.value, second) {
      return Exit(1), None;
    }
    store.Upsert(id, typed.value);
    outcome, written := Resolved(typed.value), Some(store.Items());
  }

  /**
   * Without a usable given identifier, the store's default is the first
   * identifier listed in the file (when non-empty), else "default".
   */
  lemma DefaultIdIsFirstListed(items: seq<Mapping>, given: Option<string>)
    requires !Truthy(given)
    ensures var ps := Concat(items);
      SelectId(given, Flatten(items)) == if ps != [] && ps[0].0 != "" then ps[0].0 else FallbackId
  {
    var ps := Concat(items);
    if ps != [] {
      FirstKeyFirst(ps);
    }
  }

  /** A missing or blank store file is an empty store, so the identifier is "default". */
  lemma EmptyStoreUsesDefault(f: StoreFile, given: Option<string>)
    requires f.Missing? || f.Blank? || f == Document([])
    requires !Truthy(given)
    ensures LoadItems(f) == Ok([])
    ensures SelectId(given, Flatten(LoadItems(f).value)) == FallbackId
  {
    DefaultIdIsFirstListed([], given);
  }

  /** An identifier absent from the store never passes the first check, so it leads to the prompt. */
  lemma AbsentIdPrompts(m: Mapping, id: Id, server: Server)
    requires !HasKey(m, id)
    ensures !Check(Lookup(m, id), server)
  {
  }

  /**
   * Pressing enter at both prompts keeps the previous url and user name; only
   * the password changes, to the encoding of the typed secret.
   */
  lemma PromptKeepsPrevious(prev: Entry, env: Env, secret: string, encode: string -> string)
    requires Truthy(prev.url) && Truthy(prev.username)
    ensures Prompted(prev, env, Answers(Some(""), Some(""), Some(secret)), encode)
            == Some(Entry(prev.url, prev.username, Some(encode(secret))))
  {
  }

  /**
   * With nothing previous and empty answers, the url and user name come from
   * `JENKINS_URL` and `USER`; if those are unset the second check must fail.
   */
  lemma PromptFallsBackToEnv(env: Env, secret: string, encode: string -> string, server: Server)
    ensures Prompted(NoEntry, env, Answers(Some(""), Some(""), Some(secret)), encode)
            == Some(Entry(env.jenkinsUrl, env.user, Some(encode(secret))))
    ensures !Truthy(env.jenkinsUrl) || !Truthy(env.user) ==>
            !Check(Prompted(NoEntry, env, Answers(Some(""), Some(""), Some(secret)), encode).value, server)
  {
  }

  /**
   * The store written after a successful prompt: read back, the effective
   * identifier holds the new entry exactly once, every other identifier holds
   * what it held before, an existing identifier keeps its position and a new
   * one comes last.
   */
  lemma WrittenStore(m: Mapping, id: Id, e: Entry, other: Id)
    requires UniqueKeys(m)
    ensures var back := Flatten(Serialise(Put(m, id, e)));
      && back == Put(m, id, e)
      && Get(back, id) == Some(e)
      && (other != id ==> Get(back, other) == Get(m, other))
      && (HasKey(m, id) ==> |back| == |m| && back[FirstIndex(m, id)] == (id, e))
      && (!HasKey(m, id) ==> back == m + [(id, e)])
  {
    FlattenSerialise(Put(m, id, e));
    PutGet(m, id, e, other);
  }
}
