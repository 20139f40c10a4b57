/**
 MultiSecret._fill: a copy of `dst` with the parts that a rule selects taken from `src`, and what the
 rules of each kind of secret select when it is rotated.
 */
module SecretFill {
  import opened JsonTree
  import opened Wrappers

  /** A list of fields, or a dict from key to rule. */
  datatype Rule = Fields(names: seq<string>) | Keys(rules: map<string, Rule>)

  /** The rules that are falsy in Python: below a key they select everything. */
  predicate Empty(rule: Rule) {
    rule == Fields([]) || rule == Keys(map[])
  }

  predicate HasFields(j: Json, names: seq<string>) {
    j.Dict? && forall i :: 0 <= i < |names| ==> names[i] in j.entries
  }

  /** None stands for a key that is missing or a value that is no dict. */
  function Fill(src: Json, dst: Json, rule: Rule): Option<Json>
    decreases rule, 1
  {
    match rule
    case Fields(names) =>
      if names == [] then Some(src)
      else if HasFields(src, names) && dst.Dict? then Some(Dict(map k | k in dst.entries.Keys + (set n | n in names) ::
        if k in names then src.entries[k] else dst.entries[k]))
      else None
    case Keys(rules) =>
      if rules == map[] then Some(dst)
      else if src.Dict? && dst.Dict? && forall k :: k in rules ==> KeyFilled(src, dst, rule, k).Some? then
        Some(Dict(map k | k in dst.entries.Keys + rules.Keys ::
          if k in rules then KeyFilled(src, dst, rule, k).value else dst.entries[k]))
      else None
  }

  function KeyFilled(src: Json, dst: Json, rule: Rule, k: string): Option<Json>
    requires src.Dict? && dst.Dict? && rule.Keys? && k in rule.rules
    decreases rule, 0
  {
    if k !in src.entries then None
    else if Empty(rule.rules[k]) then Some(src.entries[k])
    else if k !in dst.entries then None
    else Fill(src.entries[k], dst.entries[k], rule.rules[k])
  }

  /** The path lies in a part that the rule copies. */
  predicate Selects(rule: Rule, path: seq<string>)
    decreases rule
  {
    match rule
    case Fields(names) => names == [] || (path != [] && path[0] in names)
    case Keys(rules) => path != [] && path[0] in rules && (Empty(rules[path[0]]) || Selects(rules[path[0]], path[1..]))
  }

  /** The path leads to a dict that is copied in part. */
  predicate Above(rule: Rule, path: seq<string>)
    decreases rule
  {
    if path == [] then !Empty(rule) else
    match rule
    case Fields(names) => false
    case Keys(rules) => path[0] in rules && !Empty(rules[path[0]]) && Above(rules[path[0]], path[1..])
  }

  /** The frame of `_fill`: selected paths are the source's, and all others, but for the dicts on the
      way to them, are the destination's. */
  lemma {:induction false} FillAt(src: Json, dst: Json, rule: Rule, path: seq<string>)
    requires Fill(src, dst, rule).Some?
    ensures Selects(rule, path) ==> At(Fill(src, dst, rule).value, path) == At(src, path)
    ensures !Selects(rule, path) && !Above(rule, path) ==> At(Fill(src, dst, rule).value, path) == At(dst, path)
    ensures Above(rule, path) ==>
              && At(src, path).Some? && At(src, path).value.Dict?
              && At(dst, path).Some? && At(dst, path).value.Dict?
              && At(Fill(src, dst, rule).value, path).Some? && At(Fill(src, dst, rule).value, path).value.Dict?
    decreases rule
  {
    if path != [] && rule.Keys? && path[0] in rule.rules && !Empty(rule.rules[path[0]]) {
      assert KeyFilled(src, dst, rule, path[0]).Some?;
      FillAt(src.entries[path[0]], dst.entries[path[0]], rule.rules[path[0]], path[1..]);
    } else if path != [] && rule.Keys? && path[0] in rule.rules {
      assert KeyFilled(src, dst, rule, path[0]).Some?;
    }
  }

  predicate IsDictAt(j: Json, path: seq<string>) {
    At(j, path).Some? && At(j, path).value.Dict?
  }

  /** What the copy needs at a dict that it copies in part: dicts on both sides, and in the source
      every key to be copied from there. */
  ghost predicate ReadyAt(src: Json, dst: Json, rule: Rule, path: seq<string>) {
    Above(rule, path) ==>
      && IsDictAt(src, path) && IsDictAt(dst, path)
      && forall f :: Selects(rule, path + [f]) ==> At(src, path + [f]).Some?
  }

  lemma ReadyBelow(src: Json, dst: Json, rule: Rule, k: string, path: seq<string>)
    requires rule.Keys? && k in rule.rules && !Empty(rule.rules[k])
    requires src.Dict? && k in src.entries && dst.Dict? && k in dst.entries
    ensures ReadyAt(src, dst, rule, [k] + path) <==> ReadyAt(src.entries[k], dst.entries[k], rule.rules[k], path)
  {
    var (s, d, sub) := (src.entries[k], dst.entries[k], rule.rules[k]);
    assert ([k] + path)[1..] == path;
    assert Above(rule, [k] + path) <==> Above(sub, path);
    assert At(src, [k] + path) == At(s, path) && At(dst, [k] + path) == At(d, path);
    forall f
      ensures Selects(rule, [k] + path + [f]) <==> Selects(sub, path + [f])
      ensures At(src, [k] + path + [f]) == At(s, path + [f])
    {
      assert ([k] + path + [f])[1..] == path + [f];
    }
  }

  /** _fill fails exactly if something it needs is not there. */
  lemma {:induction false} FillDefined(src: Json, dst: Json, rule: Rule)
    ensures Fill(src, dst, rule).Some? <==> forall path {:trigger ReadyAt(src, dst, rule, path)} :: ReadyAt(src, dst, rule, path)
    decreases rule
  {
    if Empty(rule) {
      forall path ensures ReadyAt(src, dst, rule, path) {
        assert !Above(rule, path);
      }
    } else {
      TopReady(src, dst, rule);
      if src.Dict? && dst.Dict? {
        match rule
        case Fields(names) =>
          assert HasFields(src, names) <==> ReadyAt(src, dst, rule, []);
        case Keys(rules) =>
          KeysReady(src, dst, rule);
      }
    }
  }

  lemma TopReady(src: Json, dst: Json, rule: Rule)
    requires !Empty(rule)
    ensures ReadyAt(src, dst, rule, []) <==> src.Dict? && dst.Dict? && forall f :: Selects(rule, [f]) ==> f in src.entries
    ensures rule.Fields? ==> forall path {:trigger ReadyAt(src, dst, rule, path)} :: path != [] ==> ReadyAt(src, dst, rule, path)
  {
    forall f
      ensures Selects(rule, [] + [f]) <==> Selects(rule, [f])
      ensures src.Dict? ==> (At(src, [] + [f]).Some? <==> f in src.entries)
    {
      assert [] + [f] == [f];
    }
    assert Above(rule, []);
    if ReadyAt(src, dst, rule, []) {
      forall f | Selects(rule, [f]) ensures f in src.entries {
        assert Selects(rule, [] + [f]);
      }
    }
  }

  lemma {:induction false} KeysReady(src: Json, dst: Json, rule: Rule)
    requires src.Dict? && dst.Dict? && rule.Keys? && !Empty(rule)
    ensures (forall k :: k in rule.rules ==> KeyFilled(src, dst, rule, k).Some?)
            <==> forall path {:trigger ReadyAt(src, dst, rule, path)} :: ReadyAt(src, dst, rule, path)
    decreases rule, 0
  {
    forall k | k in rule.rules ensures KeyFilled(src, dst, rule, k).Some? <==> KeyReady(src, dst, rule, k) {
      if !Empty(rule.rules[k]) && k in src.entries && k in dst.entries {
        FillDefined(src.entries[k], dst.entries[k], rule.rules[k]);
      }
    }
    KeysReadyAll(src, dst, rule);
  }

  ghost predicate KeyReady(src: Json, dst: Json, rule: Rule, k: string)
    requires src.Dict? && dst.Dict? && rule.Keys? && k in rule.rules
  {
    && k in src.entries
    && (!Empty(rule.rules[k]) ==>
          && k in dst.entries
          && forall path {:trigger ReadyAt(src.entries[k], dst.entries[k], rule.rules[k], path)} :: ReadyAt(src.entries[k], dst.entries[k], rule.rules[k], path))
  }

  lemma KeysReadyAll(src: Json, dst: Json, rule: Rule)
    requires src.Dict? && dst.Dict? && rule.Keys? && !Empty(rule)
    ensures (forall k :: k in rule.rules ==> KeyReady(src, dst, rule, k))
            <==> forall path {:trigger ReadyAt(src, dst, rule, path)} :: ReadyAt(src, dst, rule, path)
  {
    hide ReadyAt;
    TopReady(src, dst, rule);
    if forall k :: k in rule.rules ==> KeyReady(src, dst, rule, k) {
      forall path ensures ReadyAt(src, dst, rule, path) {
        KeysReadyOne(src, dst, rule, path);
      }
    }
    if forall path {:trigger ReadyAt(src, dst, rule, path)} :: ReadyAt(src, dst, rule, path) {
      assert ReadyAt(src, dst, rule, []);
      forall k | k in rule.rules ensures KeyReady(src, dst, rule, k) {
        ReadyKey(src, dst, rule, k);
      }
    }
  }

  lemma KeysReadyOne(src: Json, dst: Json, rule: Rule, path: seq<string>)
    requires src.Dict? && dst.Dict? && rule.Keys? && !Empty(rule)
    requires forall k :: k in rule.rules ==> KeyReady(src, dst, rule, k)
    ensures ReadyAt(src, dst, rule, path)
  {
    if path == [] {
      TopReady(src, dst, rule);
    } else if path[0] in rule.rules && !Empty(rule.rules[path[0]]) {
      var k := path[0];
      assert KeyReady(src, dst, rule, k);
      assert ReadyAt(src.entries[k], dst.entries[k], rule.rules[k], path[1..]);
      ReadyBelow(src, dst, rule, k, path[1..]);
      assert [k] + path[1..] == path;
    }
  }

  lemma ReadyKey(src: Json, dst: Json, rule: Rule, k: string)
    requires src.Dict? && dst.Dict? && rule.Keys? && !Empty(rule) && k in rule.rules
    requires forall path {:trigger ReadyAt(src, dst, rule, path)} :: ReadyAt(src, dst, rule, path)
    ensures KeyReady(src, dst, rule, k)
  {
    TopReady(src, dst, rule);
    assert ReadyAt(src, dst, rule, []);
    if Empty(rule.rules[k]) {
      assert Selects(rule, [k]);
    } else {
      assert [k][1..] == [];
      assert Above(rule, [k]);
      assert ReadyAt(src, dst, rule, [k]);
      assert k in src.entries && k in dst.entries;
      forall path ensures ReadyAt(src.entries[k], dst.entries[k], rule.rules[k], path) {
        assert ReadyAt(src, dst, rule, [k] + path);
        ReadyBelow(src, dst, rule, k, path);
      }
    }
  }

  // ---------------------------------------------------------------- rotation of one secret

  /** First the immutable parts of the active secret into the backup, then fresh values on top. */
  function Blend(active: Json, backup: Json, keep: Rule, renew: Rule, created: Json): Option<Json> {
    match Fill(active, backup, keep)
    case None => None
    case Some(kept) => Fill(created, kept, renew)
  }

  /** A promoted secret: the renewed paths are fresh, the kept ones are the active secret's, and every
      other path but the dicts above them is what the backup held. */
  ghost predicate Blended(active: Json, backup: Json, keep: Rule, renew: Rule, created: Json, r: Json) {
    forall path {:trigger At(r, path)} ::
      && (Selects(renew, path) ==> At(r, path) == At(created, path))
      && (!Selects(renew, path) && !Above(renew, path) && Selects(keep, path) ==> At(r, path) == At(active, path))
      && (!Selects(renew, path) && !Above(renew, path) && !Selects(keep, path) && !Above(keep, path) ==> At(r, path) == At(backup, path))
  }

  lemma BlendIsBlended(active: Json, backup: Json, keep: Rule, renew: Rule, created: Json)
    requires Blend(active, backup, keep, renew, created).Some?
    ensures Blended(active, backup, keep, renew, created, Blend(active, backup, keep, renew, created).value)
  {
    var kept := Fill(active, backup, keep).value;
    var r := Blend(active, backup, keep, renew, created).value;
    forall path {:trigger At(r, path)}
      ensures Selects(renew, path) ==> At(r, path) == At(created, path)
      ensures !Selects(renew, path) && !Above(renew, path) && Selects(keep, path) ==> At(r, path) == At(active, path)
      ensures !Selects(renew, path) && !Above(renew, path) && !Selects(keep, path) && !Above(keep, path) ==> At(r, path) == At(backup, path)
    {
      FillAt(active, backup, keep, path);
      FillAt(created, kept, renew, path);
    }
  }

  /** Blending again over a blended backup gives what blending over the original would have. */
  lemma BlendedAgain(active: Json, backup: Json, keep: Rule, renew: Rule, c1: Json, first: Json, c2: Json, second: Json)
    requires Blended(active, backup, keep, renew, c1, first) && Blended(active, first, keep, renew, c2, second)
    ensures Blended(active, backup, keep, renew, c2, second)
  {
    forall path {:trigger At(second, path)}
      ensures !Selects(renew, path) && !Above(renew, path) && !Selects(keep, path) && !Above(keep, path) ==> At(second, path) == At(backup, path)
    {
      assert At(first, path) == At(first, path);
    }
  }

  // ---------------------------------------------------------------- rules of the service secrets

  datatype Kind = Plain | Barbican | Neutron

  function Each(accounts: seq<string>, fields: seq<string>): Rule {
    Keys(map x | x in accounts :: Fields(fields))
  }

  function RenewRule(accounts: seq<string>): Rule {
    var user := Keys(map["user" := Fields(["password"])]);
    Keys(map["database" := user, "messaging" := user, "notifications" := user, "identity" := Each(accounts, ["password"])])
  }

  function KeepRule(kind: Kind, guarded: seq<string>): Rule {
    var names: map<string, Rule> := if guarded == [] then map[] else map["identity" := Each(guarded, ["username"])];
    Keys(match kind
         case Plain => names
         case Barbican => names["kek" := Fields([])]
         case Neutron => names["ipsec_secret_key" := Fields([])]["metadata_secret" := Fields([])])
  }

  /** What must survive every rotation. */
  predicate Lasting(kind: Kind, guarded: seq<string>, path: seq<string>) {
    || (exists x :: x in guarded && path == ["identity", x, "username"])
    || (kind == Barbican && path == ["kek"])
    || (kind == Neutron && (path == ["ipsec_secret_key"] || path == ["metadata_secret"]))
  }

  /** The paths written afresh: the passwords of the database and message users and of the accounts, or
      the whole identity section if there is no account. */
  predicate Renewed(accounts: seq<string>, path: seq<string>) {
    || (|path| >= 3 && path[0] in {"database", "messaging", "notifications"} && path[1] == "user" && path[2] == "password")
    || (path != [] && path[0] == "identity" &&
        if accounts == [] then true else |path| >= 3 && path[1] in accounts && path[2] == "password")
  }

  lemma FieldSelects(field: string, path: seq<string>)
    ensures Selects(Fields([field]), path) <==> path != [] && path[0] == field
    ensures Above(Fields([field]), path) <==> path == []
  {
  }

  lemma EachSelects(accounts: seq<string>, field: string, path: seq<string>)
    ensures Selects(Each(accounts, [field]), path) <==> |path| >= 2 && path[0] in accounts && path[1] == field
    ensures Above(Each(accounts, [field]), path) <==> accounts != [] && |path| <= 1 && (path != [] ==> path[0] in accounts)
  {
    var rule := Each(accounts, [field]);
    assert accounts != [] ==> accounts[0] in rule.rules;
    if path != [] && path[0] in accounts {
      FieldSelects(field, path[1..]);
    }
  }

  lemma UserSelects(path: seq<string>)
    ensures var user := Keys(map["user" := Fields(["password"])]);
            && (Selects(user, path) <==> |path| >= 2 && path[0] == "user" && path[1] == "password")
            && (Above(user, path) <==> |path| <= 1 && (path != [] ==> path[0] == "user"))
  {
    var user := Keys(map["user" := Fields(["password"])]);
    assert "user" in user.rules;
    if path != [] && path[0] == "user" {
      FieldSelects("password", path[1..]);
    }
  }

  /** The path leads to a dict of which a part is written afresh. */
  predicate RenewedBelow(accounts: seq<string>, path: seq<string>) {
    || path == []
    || (|path| <= 2 && path[0] in {"database", "messaging", "notifications"} && (|path| == 2 ==> path[1] == "user"))
    || (|path| <= 2 && path[0] == "identity" && accounts != [] && (|path| == 2 ==> path[1] in accounts))
  }

  lemma RenewSelectsExactly(accounts: seq<string>, path: seq<string>)
    ensures Selects(RenewRule(accounts), path) <==> Renewed(accounts, path)
    ensures Above(RenewRule(accounts), path) <==> RenewedBelow(accounts, path)
  {
    var rule := RenewRule(accounts);
    assert "identity" in rule.rules;
    if path != [] && path[0] == "identity" {
      assert rule.rules[path[0]] == Each(accounts, ["password"]);
      EachSelects(accounts, "password", path[1..]);
      assert accounts != [] ==> accounts[0] in Each(accounts, ["password"]).rules;
      assert Empty(Each(accounts, ["password"])) <==> accounts == [];
    } else if path != [] && path[0] in rule.rules {
      UserSelects(path[1..]);
      assert rule.rules[path[0]] == Keys(map["user" := Fields(["password"])]);
      assert "user" in Keys(map["user" := Fields(["password"])]).rules;
    }
  }

  /** The path lies at or below one that must last. */
  predicate Kept(kind: Kind, guarded: seq<string>, path: seq<string>) {
    || (|path| >= 3 && path[0] == "identity" && path[1] in guarded && path[2] == "username")
    || (path != [] && kind == Barbican && path[0] == "kek")
    || (path != [] && kind == Neutron && path[0] in {"ipsec_secret_key", "metadata_secret"})
  }

  predicate KeptBelow(kind: Kind, guarded: seq<string>, path: seq<string>) {
    if path == [] then kind != Plain || guarded != []
    else |path| <= 2 && path[0] == "identity" && guarded != [] && (|path| == 2 ==> path[1] in guarded)
  }

  lemma KeepSelectsExactly(kind: Kind, guarded: seq<string>, path: seq<string>)
    ensures Selects(KeepRule(kind, guarded), path) <==> Kept(kind, guarded, path)
    ensures Above(KeepRule(kind, guarded), path) <==> KeptBelow(kind, guarded, path)
  {
    var rules := KeepRule(kind, guarded).rules;
    assert guarded != [] ==> guarded[0] in Each(guarded, ["username"]).rules && "identity" in rules;
    assert kind == Barbican ==> "kek" in rules;
    assert kind == Neutron ==> "metadata_secret" in rules;
    if path != [] && path[0] == "identity" && guarded != [] {
      assert rules[path[0]] == Each(guarded, ["username"]);
      EachSelects(guarded, "username", path[1..]);
    }
  }

  /** A rotated secret, path by path: the renewed paths are the created ones, then the kept ones are
      the active secret's, and every other but the dicts above them is what the backup held. */
  lemma BlendExactly(kind: Kind, accounts: seq<string>, guarded: seq<string>, active: Json, backup: Json, created: Json, path: seq<string>)
    requires Blend(active, backup, KeepRule(kind, guarded), RenewRule(accounts), created).Some?
    ensures var r := Blend(active, backup, KeepRule(kind, guarded), RenewRule(accounts), created).value;
            if Renewed(accounts, path) then At(r, path) == At(created, path)
            else if RenewedBelow(accounts, path) then IsDictAt(r, path)
            else if Kept(kind, guarded, path) then At(r, path) == At(active, path)
            else if KeptBelow(kind, guarded, path) then IsDictAt(r, path)
            else At(r, path) == At(backup, path)
  {
    hide RenewRule, KeepRule, Selects, Above, At, Renewed, RenewedBelow, Kept, KeptBelow;
    var kept := Fill(active, backup, KeepRule(kind, guarded)).value;
    FillAt(active, backup, KeepRule(kind, guarded), path);
    FillAt(created, kept, RenewRule(accounts), path);
    RenewSelectsExactly(accounts, path);
    KeepSelectsExactly(kind, guarded, path);
  }

  lemma KeepSelects(kind: Kind, guarded: seq<string>, path: seq<string>)
    requires Lasting(kind, guarded, path)
    ensures Selects(KeepRule(kind, guarded), path)
  {
    if x :| x in guarded && path == ["identity", x, "username"] {
      assert path[1..] == [x, "username"] && path[1..][1..] == ["username"];
      var names := Each(guarded, ["username"]);
      assert x in names.rules;
      assert Selects(Fields(["username"]), ["username"]);
      assert Selects(names, path[1..]);
      assert Selects(KeepRule(kind, guarded), path);
    }
  }

  lemma RenewSpares(kind: Kind, accounts: seq<string>, guarded: seq<string>, path: seq<string>)
    requires accounts != [] && Lasting(kind, guarded, path)
    ensures !Selects(RenewRule(accounts), path) && !Above(RenewRule(accounts), path)
  {
    if x :| x in guarded && path == ["identity", x, "username"] {
      assert path[1..] == [x, "username"] && path[1..][1..] == ["username"];
      var passwords := Each(accounts, ["password"]);
      assert accounts[0] in passwords.rules;
      assert !Selects(Fields(["password"]), ["username"]) && !Above(Fields(["password"]), ["username"]);
      assert !Selects(passwords, path[1..]) && !Above(passwords, path[1..]);
    }
  }

  /** With service accounts, what must last is in the promoted secret as the active one had it. */
  lemma LastingKept(kind: Kind, accounts: seq<string>, guarded: seq<string>, active: Json, backup: Json, created: Json, r: Json, path: seq<string>)
    requires Blended(active, backup, KeepRule(kind, guarded), RenewRule(accounts), created, r)
    requires accounts != [] && Lasting(kind, guarded, path)
    ensures At(r, path) == At(active, path)
  {
    KeepSelects(kind, guarded, path);
    RenewSpares(kind, accounts, guarded, path);
    assert At(r, path) == At(r, path);
  }

  /** create() makes one identity per service account. */
  ghost predicate CreatedFor(accounts: seq<string>, created: Json) {
    && created.Dict? && "identity" in created.entries && created.entries["identity"].Dict?
    && created.entries["identity"].entries.Keys == set x | x in accounts
  }

  lemma IdentityWiped(kind: Kind, guarded: seq<string>, active: Json, backup: Json, created: Json, x: string)
    requires CreatedFor([], created)
    requires Blend(active, backup, KeepRule(kind, guarded), RenewRule([]), created).Some?
    ensures At(Blend(active, backup, KeepRule(kind, guarded), RenewRule([]), created).value, ["identity", x, "username"]).None?
  {
    var path := ["identity", x, "username"];
    var kept := Fill(active, backup, KeepRule(kind, guarded)).value;
    assert Each([], ["password"]) == Keys(map[]);
    assert Selects(RenewRule([]), path);
    FillAt(created, kept, RenewRule([]), path);
    assert path[1..][0] == x;
  }

  /** A successful rotation keeps every protected username exactly when the service has accounts of
      its own, or nothing is protected: an empty account list selects the whole identity section. */
  lemma UsernamesKeptExactly(kind: Kind, accounts: seq<string>, guarded: seq<string>, active: Json, backup: Json, created: Json)
    requires CreatedFor(accounts, created)
    requires Blend(active, backup, KeepRule(kind, guarded), RenewRule(accounts), created).Some?
    ensures var r := Blend(active, backup, KeepRule(kind, guarded), RenewRule(accounts), created).value;
            (forall x :: x in guarded ==> At(r, ["identity", x, "username"]) == At(active, ["identity", x, "username"]))
            <==> accounts != [] || guarded == []
  {
    var keep, renew := KeepRule(kind, guarded), RenewRule(accounts);
    var r := Blend(active, backup, keep, renew, created).value;
    BlendIsBlended(active, backup, keep, renew, created);
    if accounts != [] {
      forall x | x in guarded ensures At(r, ["identity", x, "username"]) == At(active, ["identity", x, "username"]) {
        LastingKept(kind, accounts, guarded, active, backup, created, r, ["identity", x, "username"]);
      }
    } else if guarded != [] {
      var x := guarded[0];
      IdentityWiped(kind, guarded, active, backup, created, x);
      UsernamePresent(kind, guarded, active, backup, x);
    }
  }

  lemma UsernamePresent(kind: Kind, guarded: seq<string>, active: Json, backup: Json, x: string)
    requires Fill(active, backup, KeepRule(kind, guarded)).Some? && x in guarded
    ensures At(active, ["identity", x, "username"]).Some?
  {
    var rule := KeepRule(kind, guarded);
    assert rule.rules["identity"] == Each(guarded, ["username"]);
    var names := Each(guarded, ["username"]);
    assert KeyFilled(active, backup, rule, "identity").Some?;
    assert x in names.rules;
    var identity := active.entries["identity"];
    assert Fill(identity, backup.entries["identity"], names).Some?;
    assert KeyFilled(identity, backup.entries["identity"], names, x).Some?;
    var account := Fill(identity.entries[x], backup.entries["identity"].entries[x], Fields(["username"]));
    assert names.rules[x] == Fields(["username"]) && account.Some?;
    assert HasFields(identity.entries[x], ["username"]);
    assert ["username"][0] in identity.entries[x].entries;
    var path := ["identity", x, "username"];
    assert path[1..] == [x, "username"] && path[1..][1..] == ["username"] && path[1..][1..][1..] == [];
    assert At(identity.entries[x], ["username"]).Some?;
    assert At(identity, path[1..]).Some?;
  }

  /** Every password that rotation selects is the fresh one. */
  lemma PasswordsFresh(kind: Kind, accounts: seq<string>, guarded: seq<string>, active: Json, backup: Json, created: Json, r: Json, path: seq<string>)
    requires Blended(active, backup, KeepRule(kind, guarded), RenewRule(accounts), created, r)
    requires || (exists x :: x in accounts && path == ["identity", x, "password"])
             || path == ["database", "user", "password"] || path == ["messaging", "user", "password"] || path == ["notifications", "user", "password"]
    ensures At(r, path) == At(created, path)
  {
    if x :| x in accounts && path == ["identity", x, "password"] {
      assert path[1..] == [x, "password"] && path[1..][1..] == ["password"];
      assert Selects(Fields(["password"]), ["password"]);
      assert x in Each(accounts, ["password"]).rules;
      assert Selects(Each(accounts, ["password"]), path[1..]);
    } else {
      assert path[1..] == ["user", "password"] && path[1..][1..] == ["password"];
      assert Selects(Fields(["password"]), ["password"]);
      assert Selects(Keys(map["user" := Fields(["password"])]), path[1..]);
    }
    assert Selects(RenewRule(accounts), path);
    assert At(r, path) == At(r, path);
  }
}
