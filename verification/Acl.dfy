/** The access-control list: the decision comes from the longest path that says anything about the user. */
module Acl {
  import opened Arithmetic
  import opened Bits
  import opened Text
  import opened Wrappers

  /** The number of permission bits. */
  const WIDTH: nat := 32

  type Permissions = p: nat | p < Pow2(WIDTH) witness 0

  datatype AclEntry = AclEntry(principal: string, permissions: Permissions)

  type Acls = map<string, seq<AclEntry>>

  predicate Has(granted: Permissions, wanted: Permissions) {
    AndBits(granted, wanted, WIDTH) == wanted
  }

  /** Permissions are sufficient exactly if every requested bit is granted. */
  lemma HasIff(granted: Permissions, wanted: Permissions)
    ensures Has(granted, wanted) <==> Includes(granted, wanted, WIDTH)
  {
    AndIsAllIff(granted, wanted, WIDTH);
  }

  /** A missing bit refuses. */
  lemma MissingBitRefuses(granted: Permissions, wanted: Permissions, j: nat)
    requires j < WIDTH && BitAt(wanted, j, WIDTH) && !BitAt(granted, j, WIDTH)
    ensures !Has(granted, wanted)
  {
    HasIff(granted, wanted);
  }

  predicate Matches(e: AclEntry, user: string) {
    e.principal == user || e.principal == "*"
  }

  /** The last of the first n entries that is about the user. */
  function LastMatch(entries: seq<AclEntry>, n: nat, user: string): Option<AclEntry>
    requires n <= |entries|
  {
    if n == 0 then None
    else if Matches(entries[n - 1], user) then Some(entries[n - 1])
    else LastMatch(entries, n - 1, user)
  }

  function MatchAt(acls: Acls, path: string, user: string): Option<AclEntry> {
    if path in acls then LastMatch(acls[path], |acls[path]|, user) else None
  }

  ghost predicate IsLast(entries: seq<AclEntry>, n: nat, user: string, j: nat)
    requires j < n <= |entries|
  {
    Matches(entries[j], user) && forall k :: j < k < n ==> !Matches(entries[k], user)
  }

  lemma {:induction false} LastMatchIff(entries: seq<AclEntry>, n: nat, user: string)
    requires n <= |entries|
    ensures LastMatch(entries, n, user).None? <==> forall j :: 0 <= j < n ==> !Matches(entries[j], user)
    ensures LastMatch(entries, n, user).Some? ==>
      exists j :: 0 <= j < n && IsLast(entries, n, user, j) && LastMatch(entries, n, user) == Some(entries[j])
  {
    if n > 0 {
      LastMatchIff(entries, n - 1, user);
      assert Matches(entries[n - 1], user) ==> IsLast(entries, n, user, n - 1);
      assert !Matches(entries[n - 1], user) ==>
        (forall j :: 0 <= j < n - 1 && IsLast(entries, n - 1, user, j) ==> IsLast(entries, n, user, j));
    }
  }

  /** Path is a non-empty prefix of the resource with an entry about the user. */
  ghost predicate Speaks(acls: Acls, user: string, resource: string, path: string) {
    0 < |path| && path <= resource && MatchAt(acls, path, user).Some?
  }

  /** The reference decision, from the longest of the first n prefixes down: no map is searched. */
  function Best(acls: Acls, user: string, resource: string, n: nat): Option<AclEntry>
    requires n <= |resource|
  {
    if n == 0 then None
    else
      var e := MatchAt(acls, resource[..n], user);
      if e.Some? then e else Best(acls, user, resource, n - 1)
  }

  function Decision(acls: Acls, user: string, resource: string, permission: Permissions): bool {
    var e := Best(acls, user, resource, |resource|);
    e.Some? && Has(e.value.permissions, permission)
  }

  /** Best is the entry of the longest speaking path, whichever path that is. */
  lemma {:induction false} BestOfLongest(acls: Acls, user: string, resource: string, n: nat, path: string)
    requires |path| <= n <= |resource| && Speaks(acls, user, resource, path)
    requires forall other :: Speaks(acls, user, resource, other) && |other| <= n ==> |other| <= |path|
    ensures Best(acls, user, resource, n) == MatchAt(acls, path, user)
  {
    if n == |path| {
      assert resource[..n] == path;
    } else {
      if MatchAt(acls, resource[..n], user).Some? {
        assert Speaks(acls, user, resource, resource[..n]);
      }
      BestOfLongest(acls, user, resource, n - 1, path);
    }
  }

  lemma {:induction false} BestOfNone(acls: Acls, user: string, resource: string, n: nat)
    requires n <= |resource|
    requires forall other :: !Speaks(acls, user, resource, other)
    ensures Best(acls, user, resource, n) == None
  {
    if n > 0 {
      assert !Speaks(acls, user, resource, resource[..n]);
      BestOfNone(acls, user, resource, n - 1);
    }
  }

  /** Changing the entries of a path that is no longer than a speaking one, or no prefix, changes no decision. */
  lemma ShorterPathsIrrelevant(acls: Acls, user: string, resource: string, path: string, changed: string,
                               entries: seq<AclEntry>, permission: Permissions)
    requires Speaks(acls, user, resource, path) && changed != path
    requires changed <= resource ==> |changed| <= |path|
    ensures Decision(acls[changed := entries], user, resource, permission) == Decision(acls, user, resource, permission)
  {
    BestAbove(acls, acls[changed := entries], user, resource, |resource|, path);
  }

  lemma {:induction false} BestAbove(acls: Acls, acls': Acls, user: string, resource: string, n: nat, path: string)
    requires |path| <= n <= |resource| && Speaks(acls, user, resource, path)
    requires forall p :: p <= resource && |path| <= |p| ==> MatchAt(acls, p, user) == MatchAt(acls', p, user)
    ensures Best(acls', user, resource, n) == Best(acls, user, resource, n)
  {
    assert MatchAt(acls, resource[..n], user) == MatchAt(acls', resource[..n], user);
    if n == |path| {
      assert resource[..n] == path;
    } else {
      BestAbove(acls, acls', user, resource, n - 1, path);
    }
  }

  function Granted(acls: Acls, path: string, entry: AclEntry): Acls {
    acls[path := (if path in acls then acls[path] else []) + [entry]]
  }

  /** An added entry about the user decides alone for every resource below its path, unless a longer path speaks:
      it can take permissions away as well as give them. */
  lemma LatestGrantDecides(acls: Acls, user: string, resource: string, path: string, entry: AclEntry,
                           permission: Permissions)
    requires 0 < |path| && path <= resource && (entry.principal == user || entry.principal == "*")
    requires forall other :: Speaks(acls, user, resource, other) ==> |other| <= |path|
    ensures Decision(Granted(acls, path, entry), user, resource, permission) == Has(entry.permissions, permission)
  {
    var acls' := Granted(acls, path, entry);
    assert MatchAt(acls', path, user) == Some(entry);
    forall other | Speaks(acls', user, resource, other)
      ensures |other| <= |path|
    {
      assert other == path || Speaks(acls, user, resource, other);
    }
    BestOfLongest(acls', user, resource, |resource|, path);
  }

  // ----- what may be added

  const MAX_PATH: nat := 4096
  const MAX_USERNAME: nat := 256

  /** The length in UTF-8. */
  function ByteLength(s: string): nat {
    if s == "" then 0 else |Encode(s[0] as nat)| + ByteLength(s[1..])
  }

  predicate ValidPath(path: string) {
    '\0' !in path && ByteLength(path) <= MAX_PATH
  }

  predicate NameCharacter(c: char) {
    'a' <= c <= 'z' || 'A' <= c <= 'Z' || '0' <= c <= '9' || c in "_.-"
  }

  function Lower(c: char): char {
    if 'A' <= c <= 'Z' then (c as int + 32) as char else c
  }

  const REFUSED_WORDS: seq<string> :=
    ["union", "select", "insert", "update", "delete", "drop", "create", "alter", "exec", "script", "javascript",
     "onclick", "onerror"]

  /** The word occurs at position i, in upper or lower case. */
  predicate OccursAt(word: string, s: string, i: nat) {
    i + |word| <= |s| && forall j :: 0 <= j < |word| ==> Lower(s[i + j]) == word[j]
  }

  predicate ValidUsername(name: string) {
    && 0 < |name| && ByteLength(name) <= MAX_USERNAME
    && (forall i :: 0 <= i < |name| ==> NameCharacter(name[i]))
    && forall w, i :: 0 <= w < |REFUSED_WORDS| && 0 <= i < |name| ==> !OccursAt(REFUSED_WORDS[w], name, i)
  }

  /** A name of letters, digits, underscores, dots and dashes is refused exactly for its length or for one of the
      words in it, wherever it stands. */
  lemma WordsAreRefused(front: string, back: string, w: nat)
    requires w < |REFUSED_WORDS|
    ensures !ValidUsername(front + REFUSED_WORDS[w] + back)
  {
    var word, name := REFUSED_WORDS[w], front + REFUSED_WORDS[w] + back;
    WordIsLower(w);
    assert forall j :: 0 <= j < |word| ==> name[|front| + j] == word[j];
    assert OccursAt(word, name, |front|);
  }

  lemma WordIsLower(w: nat)
    requires w < |REFUSED_WORDS|
    ensures |REFUSED_WORDS[w]| > 0 && forall j :: 0 <= j < |REFUSED_WORDS[w]| ==> Lower(REFUSED_WORDS[w][j]) == REFUSED_WORDS[w][j]
  {
  }

  ghost predicate NamedOnly(acls: Acls) {
    forall path, i :: path in acls && 0 <= i < |acls[path]| ==> acls[path][i].principal != "*"
  }

  lemma WildcardIsNoName()
    ensures !ValidUsername("*")
  {
    assert !NameCharacter("*"[0]);
  }

  /** The wildcard principal that the check looks for is no valid name, so it is never added. */
  lemma WildcardNeverAdded(acls: Acls, path: string, entry: AclEntry)
    requires NamedOnly(acls) && ValidUsername(entry.principal)
    ensures NamedOnly(Granted(acls, path, entry))
  {
    WildcardIsNoName();
  }

  /** So in a table built by additions only an entry that names the user decides. */
  lemma {:induction false} NamedDecides(acls: Acls, user: string, resource: string, n: nat)
    requires NamedOnly(acls) && n <= |resource| && Best(acls, user, resource, n).Some?
    ensures Best(acls, user, resource, n).value.principal == user
  {
    var path := resource[..n];
    if n > 0 {
      if MatchAt(acls, path, user).Some? {
        LastMatchIff(acls[path], |acls[path]|, user);
      } else {
        NamedDecides(acls, user, resource, n - 1);
      }
    }
  }

  class AuthService {
    var acls: Acls

    ghost predicate Valid()
      reads this
    {
      NamedOnly(acls)
    }

    constructor ()
      ensures Valid() && acls == map[]
    {
      acls := map[];
    }

    /** Adds an entry to a path's list, new if there is none, unless path or principal is refused. */
    method AddAcl(path: string, entry: AclEntry) returns (ok: bool)
      requires Valid()
      modifies this
      ensures Valid()
      ensures ok <==> '\0' !in path && ByteLength(path) <= 4096 && ValidUsername(entry.principal)
      ensures acls == if ok then Granted(old(acls), path, entry) else old(acls)
    {
      if '\0' in path || ByteLength(path) > MAX_PATH || !ValidUsername(entry.principal) {
        return false;
      }
      WildcardNeverAdded(acls, path, entry);
      if path !in acls {
        acls := acls[path := []];
      }
      acls := acls[path := acls[path] + [entry]];
      return true;
    }

    /** Searches the map in whatever order it iterates. */
    method CheckAcl(user: string, resource: string, permission: Permissions) returns (allowed: bool)
      ensures allowed == Decision(acls, user, resource, permission)
    {
      var best: Option<AclEntry>, bestLen: nat := None, 0;
      var todo := acls.Keys;
      ghost var done := {};
      while todo != {}
        invariant todo + done == acls.Keys
        invariant Searched(acls, user, resource, done, best, bestLen)
        decreases |todo|
      {
        var path :| path in todo;
        ghost var best0, bestLen0: nat := best, bestLen;
        best, bestLen := ScanPath(path, acls[path], user, resource, best, bestLen);
        SearchedStep(acls, user, resource, done, path, best0, bestLen0, best, bestLen);
        todo, done := todo - {path}, done + {path};
      }
      SearchedAll(acls, user, resource, best, bestLen);
      if best.Some? {
        return Has(best.value.permissions, permission);
      }
      return false;
    }
  }

  /** The body of the search: one path and its entries. */
  method ScanPath(path: string, entries: seq<AclEntry>, user: string, resource: string,
                  best0: Option<AclEntry>, bestLen0: nat)
    returns (best: Option<AclEntry>, bestLen: nat)
    ensures (best, bestLen) ==
      if path <= resource && |path| > bestLen0 && LastMatch(entries, |entries|, user).Some?
      then (LastMatch(entries, |entries|, user), |path|) else (best0, bestLen0)
  {
    best, bestLen := best0, bestLen0;
    if path <= resource && |path| > bestLen {
      for j := 0 to |entries|
        invariant (best, bestLen) ==
          if LastMatch(entries, j, user).Some? then (LastMatch(entries, j, user), |path|) else (best0, bestLen0)
      {
        if entries[j].principal == user || entries[j].principal == "*" {
          best, bestLen := Some(entries[j]), |path|;
        }
      }
    }
  }

  /** After the given paths: the best entry so far, and the length of its path. */
  ghost predicate Searched(acls: Acls, user: string, resource: string, paths: set<string>,
                           best: Option<AclEntry>, bestLen: nat) {
    && (forall p :: p in paths && Speaks(acls, user, resource, p) ==> |p| <= bestLen)
    && if bestLen == 0 then best == None
       else bestLen <= |resource| && best.Some? && best == MatchAt(acls, resource[..bestLen], user)
  }

  lemma SearchedStep(acls: Acls, user: string, resource: string, paths: set<string>, path: string,
                     best: Option<AclEntry>, bestLen: nat, best': Option<AclEntry>, bestLen': nat)
    requires Searched(acls, user, resource, paths, best, bestLen) && path in acls
    requires (best', bestLen') ==
      if path <= resource && |path| > bestLen && MatchAt(acls, path, user).Some? then (MatchAt(acls, path, user), |path|)
      else (best, bestLen)
    ensures Searched(acls, user, resource, paths + {path}, best', bestLen')
  {
    if path <= resource {
      assert resource[..|path|] == path;
    }
  }

  lemma SearchedAll(acls: Acls, user: string, resource: string, best: Option<AclEntry>, bestLen: nat)
    requires Searched(acls, user, resource, acls.Keys, best, bestLen)
    ensures Best(acls, user, resource, |resource|) == best
  {
    if bestLen == 0 {
      BestOfNone(acls, user, resource, |resource|);
    } else {
      BestOfLongest(acls, user, resource, |resource|, resource[..bestLen]);
    }
  }
}
