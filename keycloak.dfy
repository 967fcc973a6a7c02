/**
 * The read-only access to the identity provider's user table: the display
 * name and e-mail of a user, looked up one at a time or in bulk. The
 * connection pool is a flag and the user table a sequence of rows.
 */
module Keycloak {
  import opened Wrappers
  import AlgorithmGeneration

  /**
   * `s.trim()`: white space and line terminators removed from both ends.
   * The result is a slice of s with only white space dropped around it.
   */
  function Trim(s: string): (r: string)
    ensures |r| <= |s|
    ensures |r| > 0 ==> !AlgorithmGeneration.IsSpace(r[0]) && !AlgorithmGeneration.IsSpace(r[|r| - 1])
    ensures exists k :: Around(s, k, r)
  {
    TrimAround(s);
    TrimEnd(TrimStart(s))
  }

  /** Trimming the end of the trimmed start leaves a slice with only white space around it. */
  lemma TrimAround(s: string)
    ensures Around(s, |s| - |TrimStart(s)|, TrimEnd(TrimStart(s)))
  {
    AroundOf(s, TrimStart(s), TrimEnd(TrimStart(s)));
  }

  /** A prefix r of a suffix t of s, with white space dropped on both sides, lies in s with white space around it. */
  lemma AroundOf(s: string, t: string, r: string)
    requires |t| <= |s| && t == s[|s| - |t|..]
    requires forall i :: 0 <= i < |s| - |t| ==> AlgorithmGeneration.IsSpace(s[i])
    requires |r| <= |t| && r == t[..|r|]
    requires forall i :: |r| <= i < |t| ==> AlgorithmGeneration.IsSpace(t[i])
    ensures Around(s, |s| - |t|, r)
  {
    var k := |s| - |t|;
    assert r == s[k..k + |r|];
    forall i | k + |r| <= i < |s|
      ensures AlgorithmGeneration.IsSpace(s[i])
    {
      assert s[i] == t[i - k];
    }
  }

  /** r is the slice of s at k, and everything of s outside it is white space. */
  predicate Around(s: string, k: int, r: string)
  {
    && 0 <= k <= |s| - |r| && r == s[k..k + |r|]
    && (forall i :: 0 <= i < k ==> AlgorithmGeneration.IsSpace(s[i]))
    && (forall i :: k + |r| <= i < |s| ==> AlgorithmGeneration.IsSpace(s[i]))
  }

  /** `s.trimStart()`: the suffix of s left once its leading white space is dropped. */
  function TrimStart(s: string): (r: string)
    ensures |r| <= |s| && r == s[|s| - |r|..]
    ensures |r| > 0 ==> !AlgorithmGeneration.IsSpace(r[0])
    ensures forall i :: 0 <= i < |s| - |r| ==> AlgorithmGeneration.IsSpace(s[i])
  {
    if |s| > 0 && AlgorithmGeneration.IsSpace(s[0]) then TrimStart(s[1..]) else s
  }

  /** `s.trimEnd()`: the prefix of s left once its trailing white space is dropped. */
  function TrimEnd(s: string): (r: string)
    ensures |r| <= |s| && r == s[..|r|]
    ensures |r| > 0 ==> !AlgorithmGeneration.IsSpace(r[|r| - 1])
    ensures |s| > 0 && !AlgorithmGeneration.IsSpace(s[0]) ==> |r| > 0 && r[0] == s[0]
    ensures forall i :: |r| <= i < |s| ==> AlgorithmGeneration.IsSpace(s[i])
  {
    if |s| > 0 && AlgorithmGeneration.IsSpace(s[|s| - 1]) then TrimEnd(s[..|s| - 1]) else s
  }

  /** `name?.trim()` is truthy. */
  predicate Present(name: Option<string>)
  {
    name.Some? && Trim(name.value) != ""
  }

  /** A name counts exactly when it is given and not all white space. */
  lemma PresentIff(name: Option<string>)
    ensures Present(name) <==> name.Some? && exists i :: 0 <= i < |name.value| && !AlgorithmGeneration.IsSpace(name.value[i])
  {
    if name.Some? {
      TrimBlank(name.value);
    }
  }

  /** A string trims to nothing exactly when it is all white space. */
  lemma TrimBlank(s: string)
    ensures Trim(s) == "" <==> forall i :: 0 <= i < |s| ==> AlgorithmGeneration.IsSpace(s[i])
  {
    var r := Trim(s);
    var k :| Around(s, k, r);
    if |r| > 0 {
      assert r[0] == s[k];
    }
  }

  /**
   * formatUserName: "first last" when both trimmed names are non-empty,
   * the one that is when only one is, else the user name.
   */
  function FormatUserName(firstName: Option<string>, lastName: Option<string>, username: string): (r: string)
    ensures Present(firstName) && Present(lastName) ==> r == Trim(firstName.value) + " " + Trim(lastName.value)
    ensures Present(firstName) && !Present(lastName) ==> r == Trim(firstName.value)
    ensures !Present(firstName) && Present(lastName) ==> r == Trim(lastName.value)
    ensures !Present(firstName) && !Present(lastName) ==> r == username
  {
    var first := if firstName.Some? then Trim(firstName.value) else "";
    var last := if lastName.Some? then Trim(lastName.value) else "";
    if first != "" && last != "" then first + " " + last
    else if first != "" then first
    else if last != "" then last
    else username
  }

  /** A formatted name is never padded: it starts and ends with a non-space whenever a name part was given. */
  lemma FormattedNameTrimmed(firstName: Option<string>, lastName: Option<string>, username: string)
    requires Present(firstName) || Present(lastName)
    ensures var r := FormatUserName(firstName, lastName, username);
      |r| > 0 && !AlgorithmGeneration.IsSpace(r[0]) && !AlgorithmGeneration.IsSpace(r[|r| - 1])
  {
    var r := FormatUserName(firstName, lastName, username);
    if Present(firstName) && Present(lastName) {
      var a, b := Trim(firstName.value), Trim(lastName.value);
      assert a != "" && b != "";
      JoinedEnds(a, b);
      assert r == a + " " + b;
    } else if Present(firstName) {
      assert r == Trim(firstName.value) != "";
    } else {
      assert r == Trim(lastName.value) != "";
    }
  }

  /** Two non-empty names joined by a space start as the first and end as the second. */
  lemma JoinedEnds(a: string, b: string)
    requires |a| > 0 && |b| > 0
    ensures var r := a + " " + b; r[0] == a[0] && r[|r| - 1] == b[|b| - 1]
  {
  }

  /** Blank names fall back to the user name. */
  lemma BlankNamesGiveUsername(username: string)
    ensures FormatUserName(Some("  "), None, username) == username
    ensures FormatUserName(None, Some("\t"), username) == username
  {
    assert TrimStart("  ") == "";
    assert TrimStart("\t") == "";
  }

  /** A row of the user table joined with its realm. */
  datatype UserRow = UserRow(id: string, username: string, email: Option<string>, firstName: Option<string>,
                             lastName: Option<string>, realm: string, enabled: bool)

  datatype UserBasicInfo = UserBasicInfo(id: string, name: string, email: string)

  /** The info of a row: the formatted name, the e-mail or, when it is null, the user name. */
  function InfoOf(u: UserRow): (r: UserBasicInfo)
    ensures r.id == u.id && r.name == FormatUserName(u.firstName, u.lastName, u.username)
    ensures r.email == (if u.email.Some? then u.email.value else u.username)
  {
    UserBasicInfo(u.id, FormatUserName(u.firstName, u.lastName, u.username), if u.email.Some? then u.email.value else u.username)
  }

  /** The rows the bulk query returns: enabled users of the realm whose id was asked for, in table order. */
  function Matching(table: seq<UserRow>, ids: seq<string>, realm: string): (r: seq<UserRow>)
    ensures forall u :: u in r <==> u in table && u.id in ids && u.realm == realm && u.enabled
  {
    if |table| == 0 then []
    else
      var u := table[|table| - 1];
      Matching(table[..|table| - 1], ids, realm) + (if u.id in ids && u.realm == realm && u.enabled then [u] else [])
  }

  /** The map the loop fills: one entry per returned row, a later row replacing an earlier one with the same id. */
  function InfoMap(rows: seq<UserRow>): (m: map<string, UserBasicInfo>)
    ensures forall id :: id in m <==> exists u :: u in rows && u.id == id
  {
    if |rows| == 0 then map[]
    else
      var init, u := rows[..|rows| - 1], rows[|rows| - 1];
      assert rows == init + [u];
      assert forall x :: x in rows <==> x in init || x == u;
      InfoMap(init)[u.id := InfoOf(u)]
  }

  /** Each entry of the map holds the info of a row with its id. */
  lemma {:induction false} InfoMapKeys(rows: seq<UserRow>)
    ensures forall id :: id in InfoMap(rows) ==> exists u :: u in rows && u.id == id && InfoMap(rows)[id] == InfoOf(u)
  {
    if |rows| > 0 {
      var init := rows[..|rows| - 1];
      var u := rows[|rows| - 1];
      InfoMapKeys(init);
      assert rows == init + [u];
      assert forall x :: x in rows <==> x in init || x == u;
    }
  }

  /** The last row with a given id decides its entry: a later row replaces an earlier one. */
  lemma {:induction false} InfoMapLastWins(rows: seq<UserRow>, i: nat)
    requires i < |rows| && forall j :: i < j < |rows| ==> rows[j].id != rows[i].id
    ensures rows[i].id in InfoMap(rows) && InfoMap(rows)[rows[i].id] == InfoOf(rows[i])
    decreases |rows|
  {
    if i < |rows| - 1 {
      var init := rows[..|rows| - 1];
      InfoMapLastWins(init, i);
    }
  }

  /** The service: whether the pool is up, the realm it is configured for, and the user table it reads. */
  class KeycloakDatabase {
    var available: bool
    var hasPool: bool
    var realmName: Option<string>
    const table: seq<UserRow>

    constructor(table0: seq<UserRow>)
      ensures !available && !hasPool && realmName.None? && table == table0
    {
      available := false;
      hasPool := false;
      realmName := None;
      table := table0;
    }

    /**
     * onModuleInit: without a database URL or a realm nothing is set up;
     * otherwise a pool is created and the smoke test's outcome (a
     * parameter) decides whether the service is available.
     */
    method Init(databaseUrl: Option<string>, realm: Option<string>, smokeTestOk: bool)
      modifies this
      ensures realmName == realm
      ensures !(databaseUrl.Some? && databaseUrl.value != "" && realm.Some? && realm.value != "") ==>
        available == old(available) && hasPool == old(hasPool)
      ensures databaseUrl.Some? && databaseUrl.value != "" && realm.Some? && realm.value != "" ==>
        hasPool == smokeTestOk && available == (smokeTestOk || old(available))
      ensures databaseUrl.Some? && databaseUrl.value != "" && realm.Some? && realm.value != "" ==>
        IsAvailable() == smokeTestOk && HasRealm()
    {
      realmName := realm;
      if databaseUrl.None? || databaseUrl.value == "" || realm.None? || realm.value == "" {
        return;
      }
      hasPool := true;
      if smokeTestOk {
        available := true;
      } else {
        hasPool := false;
      }
    }

    /** isKeycloakDatabaseAvailable: a smoke test has passed and the pool it ran on is still there. */
    function IsAvailable(): (r: bool)
      reads this
      ensures r ==> available && hasPool
      ensures available && hasPool ==> r
    {
      available && hasPool
    }

    /** The realm is configured with a non-empty name. */
    function HasRealm(): (r: bool)
      reads this
      ensures r ==> realmName.Some? && |realmName.value| > 0
      ensures realmName.Some? && |realmName.value| > 0 ==> r
    {
      realmName.Some? && realmName.value != ""
    }

    /** getUserById: None without the database or a realm, or when no enabled user of the realm has the id. */
    method GetUserById(userId: string, queryFails: bool) returns (r: Option<UserBasicInfo>)
      ensures !IsAvailable() || !HasRealm() || queryFails ==> r.None?
      ensures r.Some? ==> exists u :: u in table && u.id == userId && u.realm == realmName.value && u.enabled && r.value == InfoOf(u)
      ensures IsAvailable() && HasRealm() && !queryFails && (exists u :: u in table && u.id == userId && u.realm == realmName.value && u.enabled) ==> r.Some?
    {
      if !IsAvailable() || !HasRealm() || queryFails {
        return None;
      }
      var rows := Matching(table, [userId], realmName.value);
      if |rows| == 0 {
        return None;
      }
      assert rows[0] in rows;
      return Some(InfoOf(rows[0]));
    }

    /**
     * getUsersByIds: an empty map without the database, a realm or ids, or
     * when the query fails; otherwise the loop over the returned rows sets
     * one entry per user.
     */
    method GetUsersByIds(userIds: seq<string>, queryFails: bool) returns (m: map<string, UserBasicInfo>)
      ensures !IsAvailable() || !HasRealm() || |userIds| == 0 || queryFails ==> m == map[]
      ensures IsAvailable() && HasRealm() && |userIds| > 0 && !queryFails ==> m == InfoMap(Matching(table, userIds, realmName.value))
    {
      m := map[];
      if !IsAvailable() || !HasRealm() || |userIds| == 0 || queryFails {
        return;
      }
      m := FillMap(Matching(table, userIds, realmName.value));
    }
  }

  /** The loop of getUsersByIds over the returned rows, setting one entry per row. */
  method FillMap(rows: seq<UserRow>) returns (m: map<string, UserBasicInfo>)
    ensures m == InfoMap(rows)
  {
    m := map[];
    var i := 0;
    while i < |rows|
      invariant 0 <= i <= |rows| && m == InfoMap(rows[..i])
    {
      InfoMapStep(rows, i);
      m := m[rows[i].id := InfoOf(rows[i])];
      i := i + 1;
    }
    assert rows[..|rows|] == rows;
  }

  lemma InfoMapStep(rows: seq<UserRow>, i: nat)
    requires i < |rows|
    ensures InfoMap(rows[..i + 1]) == InfoMap(rows[..i])[rows[i].id := InfoOf(rows[i])]
  {
    assert rows[..i + 1][..i] == rows[..i];
  }

  /** The bulk lookup returns exactly the requested enabled users of the realm, and never an id that was not asked for. */
  lemma BulkLookupKeys(table: seq<UserRow>, ids: seq<string>, realm: string, id: string)
    ensures id in InfoMap(Matching(table, ids, realm)) <==>
      exists u :: u in table && u.id == id && id in ids && u.realm == realm && u.enabled
  {
    var rows := Matching(table, ids, realm);
    InfoMapKeys(rows);
    if id in InfoMap(rows) {
      var u :| u in rows && u.id == id;
    }
    if exists u :: u in table && u.id == id && id in ids && u.realm == realm && u.enabled {
      var u :| u in table && u.id == id && id in ids && u.realm == realm && u.enabled;
      assert u in rows;
    }
  }
}
