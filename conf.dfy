/** The configuration (src/conf.rs): defaults, the retry loop, the access lists and the
    access decision. Reading and deserialising the TOML file is not modelled; what
    `Config::load` does after deserialisation is. */
module Conf {
  import opened Wrappers
  import opened Strings
  import opened Unicode
  import opened Numbers
  import opened Telegram

  // ---- BTreeSet<String> as a strictly increasing sequence ----

  predicate Sorted(s: seq<string>)
  {
    forall i, j :: 0 <= i < j < |s| ==> LexLess(s[i], s[j])
  }

  /** BTreeSet::replace (an insert, as far as strings go). */
  function SetInsert(s: seq<string>, x: string): (r: seq<string>)
    requires Sorted(s)
    ensures Sorted(r) && forall y :: y in r <==> y in s || y == x
  {
    if s == [] then [x]
    else if x == s[0] then s
    else if LexLess(x, s[0]) then
      assert forall j :: 0 <= j < |s| ==> LexLess(x, s[j]) by {
        forall j | 0 <= j < |s| ensures LexLess(x, s[j]) {
          if j > 0 { LexTransitive(x, s[0], s[j]); }
        }
      }
      [x] + s
    else
      LexTotal(x, s[0]);
      var t := SetInsert(s[1..], x);
      assert forall j :: 0 <= j < |t| ==> LexLess(s[0], t[j]) by {
        forall j | 0 <= j < |t| ensures LexLess(s[0], t[j]) {
          if t[j] != x {
            assert t[j] in s[1..];
            var i :| 0 <= i < |s[1..]| && s[1..][i] == t[j];
            assert s[i + 1] == t[j];
          }
        }
      }
      [s[0]] + t
  }

  /** BTreeSet::remove. */
  function SetRemove(s: seq<string>, x: string): (r: seq<string>)
    requires Sorted(s)
    ensures Sorted(r) && forall y :: y in r <==> y in s && y != x
  {
    if s == [] then []
    else if s[0] == x then
      assert forall y :: y in s[1..] ==> y != x by {
        forall y | y in s[1..] ensures y != x {
          var i :| 0 <= i < |s[1..]| && s[1..][i] == y;
          assert LexLess(s[0], s[i + 1]);
          LexIrreflexive(x);
        }
      }
      s[1..]
    else
      var t := SetRemove(s[1..], x);
      assert forall j :: 0 <= j < |t| ==> LexLess(s[0], t[j]) by {
        forall j | 0 <= j < |t| ensures LexLess(s[0], t[j]) {
          assert t[j] in s[1..];
          var i :| 0 <= i < |s[1..]| && s[1..][i] == t[j];
          assert s[i + 1] == t[j];
        }
      }
      [s[0]] + t
  }

  // ---- ConfigGeneral ----

  datatype ConfigGeneral = ConfigGeneral(token: string, tomorrow: string, retries: nat,
                                         retrywait: nat, mensas: seq<string>, patterns: seq<string>)

  const DEFAULT_TOMORROW: string := "20:00:00"
  const DEFAULT_RETRIES: nat := 3
  const DEFAULT_RETRYWAIT: nat := 30
  const DEFAULT_MENSAS: seq<string> := ["Alte Mensa", "Zeltschlösschen"]

  /** The `[general]` table with serde's defaults filled in for the fields left out. */
  function WithDefaults(token: string, tomorrow: Option<string>, retries: Option<nat>,
                        retrywait: Option<nat>, mensas: Option<seq<string>>,
                        patterns: Option<seq<string>>): (g: ConfigGeneral)
    ensures g.token == token
    ensures g.tomorrow == (if tomorrow.Some? then tomorrow.value else DEFAULT_TOMORROW)
    ensures g.retries == (if retries.Some? then retries.value else DEFAULT_RETRIES)
    ensures g.retrywait == (if retrywait.Some? then retrywait.value else DEFAULT_RETRYWAIT)
    ensures g.mensas == (if mensas.Some? then mensas.value else DEFAULT_MENSAS)
    ensures g.patterns == (if patterns.Some? then patterns.value else [])
  {
    ConfigGeneral(token,
      match tomorrow case Some(t) => t case None => DEFAULT_TOMORROW,
      match retries case Some(r) => r case None => DEFAULT_RETRIES,
      match retrywait case Some(w) => w case None => DEFAULT_RETRYWAIT,
      match mensas case Some(m) => m case None => DEFAULT_MENSAS,
      match patterns case Some(p) => p case None => [])
  }

  /** What one `retry` did with the outcomes of the action's successive calls: finished
      after `calls` calls with a value or giving up, or still retrying when they ran out. */
  datatype RetryOutcome<R> = Done(result: Result<R, ()>, calls: nat) | Pending

  /** The call after which `retry` gives up on failures only, if ever: `retries` counted
      failures, except that with `retrywait == 0` failures are not counted and only
      `retries == 1` stops (on the first failure). */
  function GiveUpAt(g: ConfigGeneral): (m: Option<nat>)
    ensures m.Some? ==> m.value >= 1
  {
    if g.retries == 0 then None
    else if g.retrywait == 0 then (if g.retries == 1 then Some(1) else None)
    else Some(g.retries)
  }

  /** ConfigGeneral::retry, the action given by the results of its calls in order. */
  method Retry<R, E>(g: ConfigGeneral, outcomes: seq<Result<R, E>>) returns (r: RetryOutcome<R>)
    ensures r.Done? ==> 1 <= r.calls <= |outcomes| && forall k :: 0 <= k < r.calls - 1 ==> outcomes[k].Err?
    ensures r.Done? && r.result.Ok? ==>
      outcomes[r.calls - 1] == Ok(r.result.value) && (GiveUpAt(g).None? || r.calls <= GiveUpAt(g).value)
    ensures r.Done? && r.result.Err? ==> outcomes[r.calls - 1].Err? && GiveUpAt(g) == Some(r.calls)
    ensures r.Pending? ==>
      (forall k :: 0 <= k < |outcomes| ==> outcomes[k].Err?) &&
      (GiveUpAt(g).None? || |outcomes| < GiveUpAt(g).value)
  {
    var fails := 0;
    var k := 0;
    while k < |outcomes|
      invariant k <= |outcomes| && forall i :: 0 <= i < k ==> outcomes[i].Err?
      invariant GiveUpAt(g).None? || k < GiveUpAt(g).value
      invariant fails == if g.retrywait == 0 then 0 else k
    {
      match outcomes[k] {
        case Err(_) =>
          fails := fails + 1;
          if fails >= g.retries && g.retries > 0 {
            return Done(Err(()), k + 1);
          } else if g.retrywait == 0 {
            fails := fails - 1;
          }
        case Ok(x) =>
          return Done(Ok(x), k + 1);
      }
      k := k + 1;
    }
    return Pending;
  }

  // ---- ConfigAccess ----

  /** What `unpack` demands: a name that is no number must have a first char of one byte,
      since `&user[..1]` panics otherwise (and on the empty name). */
  predicate UnpackSafe(names: seq<string>)
  {
    forall k :: 0 <= k < |names| ==> ParseI64(names[k]).Some? || SliceTo(names[k], 1).Some?
  }

  /** One turn of the `unpack` loop on the user-name set. */
  function UnpackStep(names: seq<string>, user: string): (r: seq<string>)
    requires Sorted(names) && (ParseI64(user).Some? || SliceTo(user, 1).Some?)
    ensures Sorted(r)
  {
    if ParseI64(user).Some? then SetRemove(names, user)
    else if SliceTo(user, 1) == Some("@") then SetRemove(SetInsert(names, user[1..]), user)
    else names
  }

  /** The user-name set after `unpack` has visited `users` in order. */
  function UnpackNames(names: seq<string>, users: seq<string>): (r: seq<string>)
    requires Sorted(names) && UnpackSafe(users)
    ensures Sorted(r)
  {
    if users == [] then names
    else UnpackStep(UnpackNames(names, users[..|users| - 1]), users[|users| - 1])
  }

  /** The ids among `users`. */
  function NumericIds(users: seq<string>): (ids: set<int>)
    ensures forall u :: u in users && ParseI64(u).Some? ==> ParseI64(u).value in ids
    ensures forall id :: id in ids ==> exists u :: u in users && ParseI64(u) == Some(id)
  {
    set u | u in users && ParseI64(u).Some? :: ParseI64(u).value
  }

  lemma {:induction false} UnpackKeepsPlain(names: seq<string>, users: seq<string>, w: string)
    requires Sorted(names) && UnpackSafe(users) && w in names
    requires ParseI64(w).None? && SliceTo(w, 1) != Some("@")
    ensures w in UnpackNames(names, users)
    decreases |users|
  {
    if users != [] {
      UnpackKeepsPlain(names, users[..|users| - 1], w);
    }
  }

  /** A name that is neither a number nor starts with `@` survives `unpack`, and so does
      the name left by stripping one `@` when that one is plain. */
  lemma {:induction false} UnpackPlain(names: seq<string>, users: seq<string>, u: string)
    requires Sorted(names) && UnpackSafe(users) && u in users && ParseI64(u).None?
    requires (u in names && SliceTo(u, 1) != Some("@")) ||
             (SliceTo(u, 1) == Some("@") && ParseI64(u[1..]).None? && SliceTo(u[1..], 1) != Some("@"))
    ensures SliceTo(u, 1) != Some("@") ==> u in UnpackNames(names, users)
    ensures SliceTo(u, 1) == Some("@") ==> u[1..] in UnpackNames(names, users)
    decreases |users|
  {
    var front := users[..|users| - 1];
    if u in front {
      UnpackPlain(names, front, u);
      var w := if SliceTo(u, 1) == Some("@") then u[1..] else u;
      UnpackStepKeeps(UnpackNames(names, front), users[|users| - 1], w);
    } else if SliceTo(u, 1) != Some("@") {
      UnpackKeepsPlain(names, front, u);
    }
  }

  /** A turn only removes the name it visits, so a plain name is never removed. */
  lemma UnpackStepKeeps(names: seq<string>, user: string, w: string)
    requires Sorted(names) && (ParseI64(user).Some? || SliceTo(user, 1).Some?)
    requires w in names && ParseI64(w).None? && SliceTo(w, 1) != Some("@")
    ensures w in UnpackStep(names, user)
  {
  }

  /** A number moved to the ids is gone from the names, unless the same number with one
      `@` in front was also listed and put it back. */
  lemma {:induction false} UnpackDropsNumbers(names: seq<string>, users: seq<string>, u: string)
    requires Sorted(names) && UnpackSafe(users) && u in users && ParseI64(u).Some?
    requires "@" + u !in users
    ensures u !in UnpackNames(names, users)
    decreases |users|
  {
    var front := users[..|users| - 1];
    var user := users[|users| - 1];
    if u in front {
      UnpackDropsNumbers(names, front, u);
      if ParseI64(user).None? && SliceTo(user, 1) == Some("@") {
        assert user == [user[0]] + user[1..];
        assert user[..1] == "@";
      }
    }
  }

  /** Every name left after `unpack` was listed, or is a listed name with one `@` stripped. */
  lemma {:induction false} UnpackOrigin(names: seq<string>, users: seq<string>, w: string)
    requires Sorted(names) && UnpackSafe(users) && w in UnpackNames(names, users)
    ensures w in names || exists u :: u in users && SliceTo(u, 1) == Some("@") && w == u[1..]
    decreases |users|
  {
    if users != [] {
      var front := users[..|users| - 1];
      var user := users[|users| - 1];
      if w in UnpackNames(names, front) {
        UnpackOrigin(names, front, w);
        if w !in names {
          var u :| u in front && SliceTo(u, 1) == Some("@") && w == u[1..];
          assert u in users;
        }
      } else {
        assert SliceTo(user, 1) == Some("@") && w == user[1..];
      }
    }
  }

  /** Only one `@` is stripped: `@@x` becomes `@x`, not `x`. */
  lemma UnpackStripsOnce()
    ensures UnpackNames(["@@x"], ["@@x"]) == ["@x"]
  {
    assert "@@x"[1..] == "@x" && "@@x"[..1] == "@";
    assert CharsIn("@@x", 1) == Some(1);
    assert SliceTo("@@x", 1) == Some("@");
    assert ParseI64("@@x").None?;
    assert UnpackNames(["@@x"], ["@@x"][..0]) == ["@@x"];
    LexTotal("@x", "@@x");
  }

  /** One more turn of `unpack`, on the names and on the ids. */
  lemma UnpackPrefix(names: seq<string>, users: seq<string>, k: nat)
    requires Sorted(names) && UnpackSafe(users) && k < |users|
    ensures UnpackSafe(users[..k]) && UnpackSafe(users[..k + 1])
    ensures UnpackNames(names, users[..k + 1]) == UnpackStep(UnpackNames(names, users[..k]), users[k])
    ensures NumericIds(users[..k + 1]) ==
      NumericIds(users[..k]) + (if ParseI64(users[k]).Some? then {ParseI64(users[k]).value} else {})
  {
    assert users[..k + 1][..k] == users[..k];
    assert users[..k + 1] == users[..k] + [users[k]];
  }

  /** A BTreeSet<i64> and a BTreeSet<String> of one access list, as `unpack` leaves them. */
  class ConfigAccess {
    var chatids: set<int>
    var usernames: seq<string>
    var userids: set<int>

    ghost predicate Valid()
      reads this
    {
      Sorted(usernames)
    }

    /** ConfigAccess::new. */
    constructor ()
      ensures Valid() && chatids == {} && usernames == [] && userids == {}
    {
      chatids, usernames, userids := {}, [], {};
    }

    /** ConfigAccess::unpack: visiting a copy of the names in order, numbers move to the
        ids and a leading `@` is stripped once. */
    method Unpack()
      requires Valid() && UnpackSafe(usernames)
      modifies this`usernames, this`userids
      ensures Valid()
      ensures usernames == UnpackNames(old(usernames), old(usernames))
      ensures userids == old(userids) + NumericIds(old(usernames))
    {
      var users := usernames;
      var k := 0;
      while k < |users|
        invariant k <= |users| && Sorted(usernames)
        invariant usernames == UnpackNames(users, users[..k])
        invariant userids == old(userids) + NumericIds(users[..k])
      {
        UnpackPrefix(users, users, k);
        Visit(users[k]);
        k := k + 1;
      }
      assert users[..k] == users;
    }

    /** The body of the `unpack` loop for one listed name. */
    method Visit(user: string)
      requires Valid() && (ParseI64(user).Some? || SliceTo(user, 1).Some?)
      modifies this`usernames, this`userids
      ensures Valid() && usernames == UnpackStep(old(usernames), user)
      ensures userids == old(userids) + if ParseI64(user).Some? then {ParseI64(user).value} else {}
    {
      match ParseI64(user) {
        case Some(id) =>
          userids := userids + {id};
          usernames := SetRemove(usernames, user);
        case None =>
          if SliceTo(user, 1) == Some("@") {
            usernames := SetInsert(usernames, user[1..]);
            usernames := SetRemove(usernames, user);
          }
      }
    }

    /** ConfigAccess::contains_user. */
    function ContainsUser(user: Option<User>): (r: bool)
      reads this
      ensures r <==> (user.Some? &&
        (user.value.id in userids || (user.value.username.Some? && user.value.username.value in usernames)))
    {
      match user
      case None => false
      case Some(u) => u.id in userids || match u.username
        case None => false
        case Some(name) => name in usernames
    }

    /** ConfigAccess::is_empty. */
    function IsEmpty(): (r: bool)
      reads this
      ensures r <==> chatids == {} && userids == {} && usernames == []
    {
      chatids == {} && userids == {} && |usernames| == 0
    }
  }

  // ---- Config ----

  class Config {
    var general: ConfigGeneral
    var allow: ConfigAccess
    var deny: ConfigAccess

    ghost predicate Valid()
      reads this, allow, deny
    {
      allow != deny && allow.Valid() && deny.Valid()
    }

    /** The deserialised tables, before the post-processing of `load`. */
    constructor (general: ConfigGeneral, allow: ConfigAccess, deny: ConfigAccess)
      ensures this.general == general && this.allow == allow && this.deny == deny
    {
      this.general, this.allow, this.deny := general, allow, deny;
    }

    /** What Config::load does to the deserialised tables: both access lists are
        unpacked, and an empty list of cafeterias is replaced by the default one. */
    method AfterLoad()
      requires Valid() && UnpackSafe(allow.usernames) && UnpackSafe(deny.usernames)
      modifies this`general, allow, deny
      ensures Valid() && allow == old(allow) && deny == old(deny)
      ensures allow.usernames == UnpackNames(old(allow.usernames), old(allow.usernames))
      ensures deny.usernames == UnpackNames(old(deny.usernames), old(deny.usernames))
      ensures allow.userids == old(allow.userids) + NumericIds(old(allow.usernames))
      ensures deny.userids == old(deny.userids) + NumericIds(old(deny.usernames))
      ensures allow.chatids == old(allow.chatids) && deny.chatids == old(deny.chatids)
      ensures general == if old(general.mensas) == [] then old(general).(mensas := DEFAULT_MENSAS) else old(general)
      ensures general.mensas != []
    {
      allow.Unpack();
      deny.Unpack();
      if general.mensas == [] {
        general := general.(mensas := DEFAULT_MENSAS);
      }
    }

    /** Config::is_allowed: the first rule that applies decides. */
    function IsAllowed(msg: Message): (r: bool)
      reads this, allow, deny
      ensures allow.ContainsUser(msg.from) ==> r
      ensures !allow.ContainsUser(msg.from) && deny.ContainsUser(msg.from) ==> !r
      ensures !allow.ContainsUser(msg.from) && !deny.ContainsUser(msg.from) ==>
        (r <==> msg.chat.id in allow.chatids ||
                (msg.chat.id !in deny.chatids && allow.IsEmpty()))
    {
      if allow.ContainsUser(msg.from) then true
      else if deny.ContainsUser(msg.from) then false
      else if msg.chat.id in allow.chatids then true
      else if msg.chat.id in deny.chatids then false
      else if allow.IsEmpty() then true
      else false
    }
  }
}
