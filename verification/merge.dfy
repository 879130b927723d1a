/** `mergeUsers`: imported users are merged into the existing ones through a
    map keyed by lower-cased email. Existing users are set first, then the
    imported ones, so an imported user replaces the entry with its key where it
    stands and a user with a new key is appended. */
module Merge {
  import opened Wrappers
  import opened Text
  import opened Users
  import opened OrderedMap

  /** The merge key: `user.email.toLowerCase()`. */
  function EmailKey(u: User): string {
    Lower(u.email)
  }

  function EmailKeys(us: seq<User>): (ks: seq<string>)
    ensures |ks| == |us|
    ensures forall i :: 0 <= i < |us| ==> ks[i] == EmailKey(us[i])
  {
    seq(|us|, i requires 0 <= i < |us| => EmailKey(us[i]))
  }

  /** The (key, user) pairs that `forEach` sets, in order. */
  function Keyed(us: seq<User>): (m: seq<(string, User)>)
    ensures |m| == |us|
    ensures forall i :: 0 <= i < |us| ==> m[i] == (EmailKey(us[i]), us[i])
    ensures Keys(m) == EmailKeys(us) && Values(m) == us
  {
    seq(|us|, i requires 0 <= i < |us| => (EmailKey(us[i]), us[i]))
  }

  /** Every entry is filed under its own user's key. */
  predicate FiledByEmail(m: seq<(string, User)>) {
    forall i :: 0 <= i < |m| ==> m[i].0 == EmailKey(m[i].1)
  }

  lemma FiledKeys(m: seq<(string, User)>)
    requires FiledByEmail(m)
    ensures EmailKeys(Values(m)) == Keys(m)
    ensures Keyed(Values(m)) == m
  {
  }

  /** Keys in order of first occurrence, as a fresh `Map` would hold them. */
  function Dedupe(ks: seq<string>): (r: seq<string>)
    ensures Unique(r)
    ensures forall x :: x in r <==> x in ks
  {
    AddKeys([], ks)
  }

  /** The map after both `forEach` loops. */
  function MergedMap(imported: seq<User>, existing: seq<User>): (m: seq<(string, User)>)
    ensures Keys(m) == AddKeys(Dedupe(EmailKeys(existing)), EmailKeys(imported))
    ensures UniqueKeys(m) && FiledByEmail(m)
  {
    FiledMerged(imported, existing);
    SetAll(SetAll([], Keyed(existing)), Keyed(imported))
  }

  lemma FiledKeyed(us: seq<User>, p: (string, User))
    requires p in Keyed(us)
    ensures p.0 == EmailKey(p.1)
  {
    var i :| 0 <= i < |us| && Keyed(us)[i] == p;
  }

  lemma FromKeyed(us: seq<User>, p: (string, User))
    requires p in Keyed(us)
    ensures p.1 in us
  {
    var i :| 0 <= i < |us| && Keyed(us)[i] == p;
  }

  lemma FiledMerged(imported: seq<User>, existing: seq<User>)
    ensures FiledByEmail(SetAll(SetAll([], Keyed(existing)), Keyed(imported)))
  {
    var base := SetAll([], Keyed(existing));
    var m := SetAll(base, Keyed(imported));
    forall i | 0 <= i < |m| ensures m[i].0 == EmailKey(m[i].1) {
      var p := m[i];
      assert p in m;
      if p in Keyed(imported) {
        FiledKeyed(imported, p);
      } else {
        assert p in base;
        FiledKeyed(existing, p);
      }
    }
  }

  /** Every value of the map is one of the input users. */
  lemma MergedFrom(imported: seq<User>, existing: seq<User>)
    ensures forall u :: u in Values(MergedMap(imported, existing)) ==> u in imported || u in existing
  {
    var base := SetAll([], Keyed(existing));
    var m := MergedMap(imported, existing);
    var r := Values(m);
    forall u | u in r ensures u in imported || u in existing {
      var i :| 0 <= i < |r| && r[i] == u;
      var p := m[i];
      assert p in m;
      if p in Keyed(imported) {
        FromKeyed(imported, p);
      } else {
        assert p in base;
        FromKeyed(existing, p);
      }
    }
  }

  /** Every input user's key is a key of the map. */
  lemma MergedCovers(imported: seq<User>, existing: seq<User>)
    ensures forall u :: u in imported || u in existing ==> EmailKey(u) in Keys(MergedMap(imported, existing))
  {
    var ks := Keys(MergedMap(imported, existing));
    forall u | u in imported || u in existing ensures EmailKey(u) in ks {
      if u in imported {
        var i :| 0 <= i < |imported| && imported[i] == u;
        assert EmailKeys(imported)[i] == EmailKey(u);
      } else {
        var i :| 0 <= i < |existing| && existing[i] == u;
        assert EmailKeys(existing)[i] == EmailKey(u);
      }
    }
  }

  /** `mergeUsers(importedUsers, existingUsers)`. */
  function MergeUsers(imported: seq<User>, existing: seq<User>): (r: seq<User>)
    ensures EmailKeys(r) == AddKeys(Dedupe(EmailKeys(existing)), EmailKeys(imported))
    ensures Unique(EmailKeys(r))
    ensures forall u :: u in r ==> u in imported || u in existing
    ensures forall u :: u in imported || u in existing ==> EmailKey(u) in EmailKeys(r)
  {
    var m := MergedMap(imported, existing);
    FiledKeys(m);
    MergedFrom(imported, existing);
    MergedCovers(imported, existing);
    Values(m)
  }

  /** The last user in `us` with merge key `key`. */
  function LastByEmail(us: seq<User>, key: string): (u: User)
    requires key in EmailKeys(us)
    ensures u in us && EmailKey(u) == key
  {
    var m := Keyed(us);
    var u := LastValue(m, key);
    var i :| 0 <= i < |m| && m[i] == (key, u);
    u
  }

  /** A user is in the merge exactly when the map holds it under its key. */
  lemma InMerge(imported: seq<User>, existing: seq<User>, w: User)
    ensures w in MergeUsers(imported, existing) <==> Get(MergedMap(imported, existing), EmailKey(w)) == Some(w)
  {
    var m := MergedMap(imported, existing);
    var r := Values(m);
    assert MergeUsers(imported, existing) == r;
    if w in r {
      var i :| 0 <= i < |r| && r[i] == w;
      assert m[i] == (EmailKey(w), w);
      GetAt(m, i);
    }
    if Get(m, EmailKey(w)) == Some(w) {
      var i := IndexOf(Keys(m), EmailKey(w));
      assert r[i] == w;
    }
  }

  /** What the map holds under a key: the last imported user with it, if any,
      else the last existing one. */
  lemma MergedGet(imported: seq<User>, existing: seq<User>, key: string)
    ensures Get(MergedMap(imported, existing), key)
            == if key in EmailKeys(imported) then Some(LastByEmail(imported, key))
               else if key in EmailKeys(existing) then Some(LastByEmail(existing, key))
               else None
  {
    SetAllGet(SetAll([], Keyed(existing)), Keyed(imported), key);
    SetAllGet([], Keyed(existing), key);
  }

  /** For every key among the imported users, the merge holds the last imported
      user with that key and no other user with it. */
  lemma ImportedWins(imported: seq<User>, existing: seq<User>, key: string)
    requires key in EmailKeys(imported)
    ensures var r := MergeUsers(imported, existing);
            && LastByEmail(imported, key) in r
            && forall w :: w in r && EmailKey(w) == key ==> w == LastByEmail(imported, key)
  {
    var u := LastByEmail(imported, key);
    MergedGet(imported, existing, key);
    InMerge(imported, existing, u);
    forall w | w in MergeUsers(imported, existing) && EmailKey(w) == key
      ensures w == u
    {
      InMerge(imported, existing, w);
    }
  }

  /** When the existing users have distinct keys, an existing user survives the
      merge exactly when no imported user shares its key, or the last one that
      does is identical to it. */
  lemma ExistingSurvives(imported: seq<User>, existing: seq<User>, e: User)
    requires e in existing && Unique(EmailKeys(existing))
    ensures e in MergeUsers(imported, existing) <==>
              EmailKey(e) !in EmailKeys(imported) || LastByEmail(imported, EmailKey(e)) == e
  {
    var key := EmailKey(e);
    var i :| 0 <= i < |existing| && existing[i] == e;
    GetAt(Keyed(existing), i);
    LastValueUnique(Keyed(existing), key);
    MergedGet(imported, existing, key);
    InMerge(imported, existing, e);
  }

  /** An existing user whose key no imported user has is kept. */
  lemma UntouchedKept(imported: seq<User>, existing: seq<User>, e: User)
    requires e in existing && Unique(EmailKeys(existing))
    requires forall u :: u in imported ==> EmailKey(u) != EmailKey(e)
    ensures e in MergeUsers(imported, existing)
  {
    ExistingSurvives(imported, existing, e);
  }

  /** Existing keys keep their first-occurrence order at the front; the keys
      after them are new, in the order the imported users bring them. */
  lemma MergeOrder(imported: seq<User>, existing: seq<User>)
    ensures var ks, d := EmailKeys(MergeUsers(imported, existing)), Dedupe(EmailKeys(existing));
            && d <= ks
            && (forall i :: |d| <= i < |ks| ==> ks[i] !in EmailKeys(existing) && ks[i] in EmailKeys(imported))
            && ks == Dedupe(EmailKeys(existing) + EmailKeys(imported))
  {
    AddKeysConcat([], EmailKeys(existing), EmailKeys(imported));
    AddKeysTail(Dedupe(EmailKeys(existing)), EmailKeys(imported));
  }

  /** No imported user shares a key with an existing one. */
  predicate Disjoint(imported: seq<User>, existing: seq<User>) {
    forall u, e :: u in imported && e in existing ==> EmailKey(u) != EmailKey(e)
  }

  lemma DisjointKeys(imported: seq<User>, existing: seq<User>)
    requires Disjoint(imported, existing)
    ensures forall x :: x in EmailKeys(imported) ==> x !in EmailKeys(existing)
  {
    forall x | x in EmailKeys(imported) ensures x !in EmailKeys(existing) {
      var i :| 0 <= i < |imported| && EmailKeys(imported)[i] == x;
      assert imported[i] in imported;
    }
  }

  /** The merge has one user per distinct key. */
  lemma MergeSize(imported: seq<User>, existing: seq<User>)
    ensures |MergeUsers(imported, existing)| == |Dedupe(EmailKeys(existing) + EmailKeys(imported))|
  {
    MergeOrder(imported, existing);
  }

  /** When the keys of each side are distinct and no key is shared, every user
      of both sides is kept: existing ones first, then the imported ones. */
  lemma DisjointMerge(imported: seq<User>, existing: seq<User>)
    requires Unique(EmailKeys(existing)) && Unique(EmailKeys(imported))
    requires Disjoint(imported, existing)
    ensures EmailKeys(MergeUsers(imported, existing)) == EmailKeys(existing) + EmailKeys(imported)
    ensures |MergeUsers(imported, existing)| == |existing| + |imported|
  {
    MergeOrder(imported, existing);
    DisjointKeys(imported, existing);
    AddKeysDisjoint(EmailKeys(existing), EmailKeys(imported));
  }

  lemma SetOne(m: seq<(string, User)>, u: User)
    ensures SetAll(m, Keyed([u])) == Set(m, EmailKey(u), u)
  {
    assert Keyed([u])[..0] == [];
  }

  /** Importing one user whose key an existing user has replaces that user
      where it stands. */
  lemma ReplaceInPlace(existing: seq<User>, i: nat, u: User)
    requires Unique(EmailKeys(existing)) && i < |existing|
    requires EmailKey(u) == EmailKey(existing[i])
    ensures MergeUsers([u], existing) == existing[i := u]
  {
    var m := Keyed(existing);
    Replay(m);
    SetOne(m, u);
    SetPresent(m, i, u);
  }

  /** Importing one user with a new key appends it. */
  lemma AppendNew(existing: seq<User>, u: User)
    requires Unique(EmailKeys(existing))
    requires EmailKey(u) !in EmailKeys(existing)
    ensures MergeUsers([u], existing) == existing + [u]
  {
    var m := Keyed(existing);
    Replay(m);
    SetOne(m, u);
    SetAbsent(m, EmailKey(u), u);
  }

  lemma UpperCaseKey()
    ensures Lower("A@X.COM") == "a@x.com"
  {
  }

  /** Keys ignore case: an import whose address differs from an existing one
      only in case replaces it. */
  lemma CaseInsensitiveReplace(a: User, b: User)
    requires a.email == "a@x.com" && b.email == "A@X.COM"
    ensures MergeUsers([b], [a]) == [b]
  {
    UpperCaseKey();
    assert Lower("a@x.com") == "a@x.com";
    ReplaceInPlace([a], 0, b);
  }

  /** Merging the same import again changes nothing. */
  lemma MergeIdempotent(imported: seq<User>, existing: seq<User>)
    ensures MergeUsers(imported, MergeUsers(imported, existing)) == MergeUsers(imported, existing)
  {
    var base := SetAll([], Keyed(existing));
    var m := MergedMap(imported, existing);
    var r := MergeUsers(imported, existing);
    FiledKeys(m);
    assert Keyed(r) == m;
    Replay(m);
    assert UniqueKeys(base);
    SetAllIdempotent(base, Keyed(imported));
  }
}
