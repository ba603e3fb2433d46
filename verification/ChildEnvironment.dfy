/** The environment of a guest command (command.rs `populate_environment`, session.rs
    `apply_environment`). A character stands for one byte, as in ImageEnvironment.

    The code writes five layers over each other into a command. The specification is the
    other way round: for one name, who decides.
 */
module ChildEnvironment {
  import opened ImageEnvironment
  import opened Outcomes

  datatype User = User(name: string, home: string, shell: string)

  datatype Token = Absent | Text(value: string) | Unreadable

  /** What the session directory `dir` holds when the command is prepared. */
  datatype Session = Session(dir: string, agent: bool, knownHosts: bool, token: Token)

  /** Sizes that validate_effective_process_size looks at besides the environment. */
  datatype Arguments = Arguments(bytes: nat, items: nat, systemLimit: int)

  const DEFAULT_PATH := "/usr/local/sbin:/usr/local/bin:/usr/sbin:/usr/bin:/sbin:/bin"
  const SSH :=
    "ssh -o BatchMode=yes -o StrictHostKeyChecking=yes " +
    "-o GlobalKnownHostsFile=/dev/null -o UserKnownHostsFile="
  const MAX_ENVIRONMENT_BYTES: nat := 1024 * 1024
  const ARG_MAX_RESERVE: nat := 32 * 1024
  const ADDRESS_BYTES: nat := 8

  /** What the session says about one name. */
  datatype Control = Sets(value: string) | Removes | Silent

  function SessionControl(s: Session, name: string): Control {
    if name == "GIT_CONFIG_GLOBAL" then
      Sets(s.dir + "/gitconfig")
    else if name == "SSH_AUTH_SOCK" then
      if s.agent then Sets(s.dir + "/ssh-agent.sock") else Removes
    else if name == "GIT_SSH_COMMAND" then
      if s.knownHosts then Sets(SSH + s.dir + "/ssh-known-hosts") else Removes
    else if name == "GITHUB_TOKEN" then
      Removes
    else if name == "GH_TOKEN" then
      if s.token.Text? then Sets(s.token.value) else Removes
    else
      Silent
  }

  function Identity(u: User): Environment {
    map["HOME" := u.home, "USER" := u.name, "LOGNAME" := u.name, "SHELL" := u.shell]
  }

  /** What a command has before the session is applied: the account, then the image, then
      the fallback for PATH. */
  function Inherited(image: Environment, u: User, name: string): Option<string> {
    if name in Identity(u) then Some(Identity(u)[name])
    else if name in image then Some(image[name])
    else if name == "PATH" then Some(DEFAULT_PATH)
    else None
  }

  function Controlled(s: Session, name: string, otherwise: Option<string>): Option<string> {
    match SessionControl(s, name)
    case Sets(value) => Some(value)
    case Removes => None
    case Silent => otherwise
  }

  /** Who decides about a name: the request, then the session, then the account, then the
      image, then the fallback for PATH. */
  function Decided(image: Environment, u: User, s: Session, request: Environment, name: string): Option<string> {
    if name in request then Some(request[name]) else Controlled(s, name, Inherited(image, u, name))
  }

  /** `env` is the environment of a command with this image. */
  ghost predicate Effective(image: Environment, env: Environment, u: User, s: Session, request: Environment) {
    forall name :: Lookup(env, name) == Decided(image, u, s, request, name)
  }

  function Lookup(env: Environment, name: string): Option<string> {
    if name in env then Some(env[name]) else None
  }

  /** The size the kernel sees: NAME=value and a NUL for each variable. */
  ghost function Bytes(env: Environment): nat {
    if env == map[] then
      0
    else
      var name :| name in env;
      |name| + |env[name]| + 2 + Bytes(env - {name})
  }

  /** The order of summation does not matter. */
  lemma {:induction false} BytesWithout(env: Environment, name: string)
    requires name in env
    ensures Bytes(env) == |name| + |env[name]| + 2 + Bytes(env - {name})
    decreases |env|
  {
    var first :| first in env && Bytes(env) == |first| + |env[first]| + 2 + Bytes(env - {first});
    if first != name {
      BytesWithout(env - {first}, name);
      BytesWithout(env - {name}, first);
      assert env - {first} - {name} == env - {name} - {first};
    }
  }

  function ArgumentLimit(a: Arguments): int {
    var limit := if a.systemLimit > 0 then a.systemLimit else 2 * 1024 * 1024;
    if limit < ARG_MAX_RESERVE then 0 else limit - ARG_MAX_RESERVE
  }

  predicate SizesFit(bytes: int, items: int, a: Arguments) {
    && bytes <= MAX_ENVIRONMENT_BYTES
    && a.bytes + bytes + (a.items + items + 2) * ADDRESS_BYTES <= ArgumentLimit(a)
  }

  /** When `validate_effective_process_size` accepts. */
  ghost predicate Fits(env: Environment, a: Arguments) {
    SizesFit(Bytes(env), |env|, a)
  }

  /** std::process::Command after `env_clear`. */
  class Command {
    var env: Environment

    constructor ()
      ensures env == map[]
    {
      env := map[];
    }

    method Set(name: string, value: string)
      modifies this
      ensures env == old(env)[name := value]
    {
      env := env[name := value];
    }

    method Unset(name: string)
      modifies this
      ensures env == old(env) - {name}
    {
      env := env - {name};
    }

    /** A loop over a BTreeMap. */
    method SetAll(values: Environment)
      modifies this
      ensures env == old(env) + values
      ensures forall n :: Lookup(env, n) == if n in values then Some(values[n]) else Lookup(old(env), n)
    {
      var left := values.Keys;
      while left != {}
        invariant left <= values.Keys
        invariant env.Keys == old(env).Keys + (values.Keys - left)
        invariant forall n :: n in env ==>
          env[n] == if n in values.Keys - left then values[n] else old(env)[n]
        decreases left
      {
        var name :| name in left;
        left := left - {name};
        Set(name, values[name]);
      }
    }

    method SetOrUnset(name: string, value: Option<string>)
      modifies this
      ensures forall n :: Lookup(env, n) == if n == name then value else Lookup(old(env), n)
    {
      if value.Some? {
        Set(name, value.value);
      } else {
        Unset(name);
      }
    }

    /** session.rs `apply_environment`. */
    method ApplySession(s: Session) returns (o: Outcome<()>)
      modifies this
      ensures o == if s.token.Unreadable? then Err else Ok(())
      ensures o.Ok? ==> forall name :: Lookup(env, name) == Controlled(s, name, Lookup(old(env), name))
    {
      SetOrUnset("GIT_CONFIG_GLOBAL", Some(s.dir + "/gitconfig"));
      SetOrUnset("SSH_AUTH_SOCK", if s.agent then Some(s.dir + "/ssh-agent.sock") else None);
      SetOrUnset("GIT_SSH_COMMAND", if s.knownHosts then Some(SSH + s.dir + "/ssh-known-hosts") else None);
      SetOrUnset("GITHUB_TOKEN", None);
      if s.token.Unreadable? {
        return Err;
      }
      SetOrUnset("GH_TOKEN", if s.token.Text? then Some(s.token.value) else None);
      return Ok(());
    }

    /** `validate_effective_process_size`: the environment takes at most 1 MiB, and with the
        arguments, a pointer for each string and list end, and 32 KiB to spare it stays
        within ARG_MAX, or within 2 MiB if that is not known. */
    method CheckSize(a: Arguments) returns (ok: bool)
      ensures ok <==> Fits(env, a)
      ensures ok <==>
        && Bytes(env) <= 0x10_0000
        && a.bytes + Bytes(env) + 8 * (a.items + |env| + 2) + 0x8000 <=
           if a.systemLimit > 0 then a.systemLimit else 0x20_0000
    {
      var left, bytes := env, 0;
      while left != map[]
        invariant bytes + Bytes(left) == Bytes(env)
        decreases |left|
      {
        var name :| name in left;
        BytesWithout(left, name);
        bytes := bytes + |name| + |left[name]| + 2;
        left := left - {name};
      }
      return SizesFit(bytes, |env|, a);
    }

    /** The layers below the session. */
    method Inherit(image: Environment, u: User)
      modifies this
      ensures forall name :: Lookup(env, name) == Inherited(image, u, name)
    {
      env := map[];
      SetOrUnset("PATH", Some(DEFAULT_PATH));
      SetAll(image);
      SetOrUnset("HOME", Some(u.home));
      SetOrUnset("USER", Some(u.name));
      SetOrUnset("LOGNAME", Some(u.name));
      SetOrUnset("SHELL", Some(u.shell));
    }

    /** command.rs `populate_environment`; `image` is None if it cannot be read. */
    method Populate(image: Option<Environment>, u: User, s: Session, request: Environment, a: Arguments)
      returns (o: Outcome<()>)
      modifies this
      ensures image.None? || s.token.Unreadable? ==> o.Err?
      ensures image.Some? && !s.token.Unreadable? ==>
        && Effective(image.value, env, u, s, request)
        && (o.Ok? <==> Fits(env, a))
    {
      if image.None? {
        return Err;
      }
      Inherit(image.value, u);
      var _ :- ApplySession(s);
      SetAll(request);
      var ok := CheckSize(a);
      return if ok then Ok(()) else Err;
    }

    /** The whole way from the Config.Env list to the child: host check, encoding, guest
        check, decoding, and the layers. A name that nothing above the image decides has
        the value of its last entry. */
    method PopulateFromEntries(
      es: seq<Entry>, utf8: string -> bool, u: User, s: Session, request: Environment, a: Arguments)
      returns (o: Outcome<()>)
      requires AllUtf8(es, utf8)
      modifies this
      ensures !Legal(es) || s.token.Unreadable? ==> o.Err?
      ensures Legal(es) && !s.token.Unreadable? ==>
        && Effective(LastWins(es), env, u, s, request)
        && (forall i :: 0 <= i < |es| && IsLast(es, i) && Passes(u, s, request, NameOf(es[i])) ==>
          Lookup(env, NameOf(es[i])) == Some(ValueOf(es[i])))
        && (o.Ok? <==> Fits(env, a))
    {
      var image := Transport(es, utf8);
      o := Populate(image, u, s, request, a);
      if Legal(es) && !s.token.Unreadable? {
        forall i | 0 <= i < |es| && IsLast(es, i) && Passes(u, s, request, NameOf(es[i]))
          ensures Lookup(env, NameOf(es[i])) == Some(ValueOf(es[i]))
        {
          LastWinsValue(es, i);
        }
      }
    }
  }

  /** Entry i is the last one with its name. */
  predicate IsLast(es: seq<Entry>, i: nat)
    requires i < |es| && forall j :: 0 <= j < |es| ==> EQUALS in es[j]
  {
    forall j :: i < j < |es| ==> NameOf(es[j]) != NameOf(es[i])
  }

  /** Nothing above the image decides about the name. */
  predicate Passes(u: User, s: Session, request: Environment, name: string) {
    name !in request && SessionControl(s, name).Silent? && name !in Identity(u)
  }

  /** Names the session manages never come from the image. */
  lemma ManagedNamesAreNotInherited(
    image: Environment, other: Environment, u: User, s: Session, request: Environment, name: string)
    requires name in {"GIT_CONFIG_GLOBAL", "SSH_AUTH_SOCK", "GIT_SSH_COMMAND", "GITHUB_TOKEN", "GH_TOKEN"}
    ensures Decided(image, u, s, request, name) == Decided(other, u, s, request, name)
    ensures !SessionControl(s, name).Sets? && name !in request ==> Decided(image, u, s, request, name).None?
  {
  }

  // Sizes

  lemma BytesOfInsert(env: Environment, name: string, value: string)
    ensures name !in env ==> Bytes(env[name := value]) == Bytes(env) + |name| + |value| + 2
    ensures name in env ==> Bytes(env[name := value]) + |env[name]| == Bytes(env) + |value|
  {
    var larger := env[name := value];
    BytesWithout(larger, name);
    assert larger - {name} == env - {name};
    if name in env {
      BytesWithout(env, name);
    } else {
      assert env - {name} == env;
    }
  }

  lemma UnionWithout<K, V>(a: map<K, V>, b: map<K, V>, k: K)
    requires k in b && k !in a
    ensures (a + b) - {k} == a + (b - {k})
  {
    var l, r := (a + b) - {k}, a + (b - {k});
    forall x
      ensures x in l <==> x in r
      ensures x in l ==> l[x] == r[x]
    {
    }
  }

  lemma WithoutOne<K, V>(m: map<K, V>, keys: set<K>, k: K)
    requires k in m && k in keys && forall x :: x in keys && x in m ==> x == k
    ensures m - keys == m - {k} && |m - {k}| == |m| - 1
  {
    assert m.Keys == (m - {k}).Keys + {k};
  }

  lemma WithoutNone<K, V>(m: map<K, V>, keys: set<K>)
    requires keys !! m.Keys
    ensures m - keys == m
  {
  }

  lemma {:induction false} BytesOfUnion(a: Environment, b: Environment)
    requires a.Keys !! b.Keys
    ensures Bytes(a + b) == Bytes(a) + Bytes(b)
    decreases |b|
  {
    if b == map[] {
      assert a + b == a;
    } else {
      var name :| name in b;
      WithoutOne(b, {name}, name);
      BytesOfUnion(a, b - {name});
      BytesOfUnionStep(a, b, name);
    }
  }

  lemma BytesOfUnionStep(a: Environment, b: Environment, name: string)
    requires a.Keys !! b.Keys && name in b
    requires Bytes(a + (b - {name})) == Bytes(a) + Bytes(b - {name})
    ensures Bytes(a + b) == Bytes(a) + Bytes(b)
  {
    UnionWithout(a, b, name);
    BytesWithout(b, name);
    BytesWithout(a + b, name);
  }

  predicate DistinctNames(es: seq<Entry>)
    requires forall i :: 0 <= i < |es| ==> EQUALS in es[i]
  {
    forall i, j :: 0 <= i < j < |es| ==> NameOf(es[i]) != NameOf(es[j])
  }

  /** What the host counts is never less than what the variables take, and the same
      exactly if no name appears twice. */
  lemma {:induction false} ImageBytes(es: seq<Entry>)
    requires forall i :: 0 <= i < |es| ==> EQUALS in es[i]
    ensures Bytes(LastWins(es)) <= Size(es)
    ensures Bytes(LastWins(es)) == Size(es) <==> DistinctNames(es)
  {
    if es != [] {
      ImageBytes(es[..|es| - 1]);
      ImageBytesStep(es);
      LastIsNew(es);
    }
  }

  lemma ImageBytesStep(es: seq<Entry>)
    requires es != [] && forall i :: 0 <= i < |es| ==> EQUALS in es[i]
    ensures
      var n := |es| - 1;
      var before, after := LastWins(es[..n]), LastWins(es);
      && Size(es) == Size(es[..n]) + |es[n]| + 1
      && (NameOf(es[n]) !in before ==> Bytes(after) == Bytes(before) + |es[n]| + 1)
      && (NameOf(es[n]) in before ==> Bytes(after) < Bytes(before) + |es[n]| + 1)
  {
    var n := |es| - 1;
    BytesOfInsert(LastWins(es[..n]), NameOf(es[n]), ValueOf(es[n]));
    EntrySize(es[n]);
  }

  lemma EntrySize(e: Entry)
    requires EQUALS in e
    ensures |e| == |NameOf(e)| + 1 + |ValueOf(e)|
  {
    assert e == NameOf(e) + [EQUALS] + ValueOf(e);
  }

  lemma LastIsNew(es: seq<Entry>)
    requires es != [] && forall i :: 0 <= i < |es| ==> EQUALS in es[i]
    ensures DistinctNames(es) <==>
      DistinctNames(es[..|es| - 1]) && NameOf(es[|es| - 1]) !in LastWins(es[..|es| - 1])
  {
    var n := |es| - 1;
    var front, name := es[..n], NameOf(es[n]);
    assert forall i :: 0 <= i < n ==> front[i] == es[i];
    if name in LastWins(front) {
      var i := LastWinsNames(front, name);
      assert NameOf(es[i]) == NameOf(es[n]);
    } else {
      forall i | 0 <= i < n
        ensures NameOf(es[i]) != name
      {
        NamesAreThere(front, i);
      }
    }
  }

  lemma {:induction false} NamesAreThere(es: seq<Entry>, i: nat)
    requires i < |es| && forall j :: 0 <= j < |es| ==> EQUALS in es[j]
    ensures NameOf(es[i]) in LastWins(es)
  {
    var n := |es| - 1;
    if i < n {
      NamesAreThere(es[..n], i);
    }
  }

  /** The part of the image that reaches the child. */
  function Surviving(image: Environment, u: User, s: Session, request: Environment): Environment {
    map name | name in image && Passes(u, s, request, name) :: image[name]
  }

  /** The fallback PATH is not there when the image supplies one. */
  function Fallback(kept: Environment): nat {
    if "PATH" in kept then |"PATH"| + |DEFAULT_PATH| + 2 else 0
  }

  lemma EffectiveIsSum(
    image: Environment, env: Environment, base: Environment, u: User, s: Session, request: Environment)
    requires Effective(image, env, u, s, request) && Effective(map[], base, u, s, request)
    ensures
      var kept := Surviving(image, u, s, request);
      && env == kept + (base - kept.Keys)
      && (forall name :: name in kept && name in base ==> name == "PATH" && base[name] == DEFAULT_PATH)
      && ("PATH" in kept ==> "PATH" in base)
  {
    var kept := Surviving(image, u, s, request);
    var sum := kept + (base - kept.Keys);
    forall name
      ensures Lookup(env, name) == Lookup(sum, name)
    {
      assert Lookup(env, name) == Decided(image, u, s, request, name);
      assert Lookup(base, name) == Decided(map[], u, s, request, name);
    }
    SameLookups(env, sum);
    forall name | name in kept && name in base
      ensures name == "PATH" && base[name] == DEFAULT_PATH
    {
      assert Lookup(base, name) == Decided(map[], u, s, request, name);
    }
    assert Lookup(base, "PATH") == Decided(map[], u, s, request, "PATH");
  }

  lemma SameLookups(a: Environment, b: Environment)
    requires forall name :: Lookup(a, name) == Lookup(b, name)
    ensures a == b
  {
    assert forall name :: name in a <==> Lookup(a, name).Some?;
    assert forall name :: name in b <==> Lookup(b, name).Some?;
    assert forall name :: name in a ==> Lookup(a, name) == Some(a[name]) && Lookup(b, name) == Some(b[name]);
  }

  /** The size of what survives of an image together with what is there anyway. */
  ghost function SumOfBytes(kept: Environment, base: Environment): int {
    Bytes(kept) + Bytes(base) - Fallback(kept)
  }

  function SumOfItems(kept: Environment, base: Environment): int {
    |kept| + |base| - if "PATH" in kept then 1 else 0
  }

  lemma BaseWithoutKept(kept: Environment, base: Environment)
    requires forall name :: name in kept && name in base ==> name == "PATH" && base[name] == DEFAULT_PATH
    requires "PATH" in kept ==> "PATH" in base
    ensures Bytes(base - kept.Keys) == Bytes(base) - Fallback(kept)
    ensures |base - kept.Keys| == |base| - if "PATH" in kept then 1 else 0
  {
    if "PATH" in kept {
      WithoutOne(base, kept.Keys, "PATH");
      BytesWithout(base, "PATH");
    } else {
      WithoutNone(base, kept.Keys);
    }
  }

  lemma EffectiveSize(
    image: Environment, env: Environment, base: Environment, u: User, s: Session, request: Environment)
    requires Effective(image, env, u, s, request) && Effective(map[], base, u, s, request)
    ensures Bytes(env) == SumOfBytes(Surviving(image, u, s, request), base)
    ensures |env| == SumOfItems(Surviving(image, u, s, request), base)
  {
    EffectiveIsSum(image, env, base, u, s, request);
    SumSizes(Surviving(image, u, s, request), base);
  }

  lemma SumSizes(kept: Environment, base: Environment)
    requires forall name :: name in kept && name in base ==> name == "PATH" && base[name] == DEFAULT_PATH
    requires "PATH" in kept ==> "PATH" in base
    ensures Bytes(kept + (base - kept.Keys)) == SumOfBytes(kept, base)
    ensures |kept + (base - kept.Keys)| == SumOfItems(kept, base)
  {
    BaseWithoutKept(kept, base);
    BytesOfUnion(kept, base - kept.Keys);
    SizeOfUnion(kept, base - kept.Keys);
  }

  /** Exactly when the guest accepts a command, for all images: `base` is what the command
      would have without an image. Image entries that are overridden or removed, and all
      but the last of a name, cost nothing. */
  lemma AcceptedExactly(
    image: Environment, env: Environment, base: Environment, u: User, s: Session, request: Environment, a: Arguments)
    requires Effective(image, env, u, s, request) && Effective(map[], base, u, s, request)
    ensures
      var kept := Surviving(image, u, s, request);
      Fits(env, a) <==> SizesFit(SumOfBytes(kept, base), SumOfItems(kept, base), a)
  {
    EffectiveSize(image, env, base, u, s, request);
  }

  lemma SizeOfUnion(a: Environment, b: Environment)
    requires a.Keys !! b.Keys
    ensures |a + b| == |a| + |b|
  {
    assert (a + b).Keys == a.Keys + b.Keys;
    assert |a.Keys + b.Keys| == |a.Keys| + |b.Keys|;
  }

  /** An image environment of the full size that host and guest allow. */
  function FullImage(name: string): seq<Entry>
    requires 0 < |name| < MAX_BYTES - 2
  {
    [name + "=" + seq(MAX_BYTES - 2 - |name|, i => 'x')]
  }

  lemma FullImageIsLegal(name: string)
    requires 0 < |name| < MAX_BYTES - 2 && EQUALS !in name && NUL !in name
    ensures Legal(FullImage(name)) && Size(FullImage(name)) == MAX_BYTES
    ensures LastWins(FullImage(name)).Keys == {name} && Bytes(LastWins(FullImage(name))) == MAX_BYTES
  {
    var es := FullImage(name);
    var value := seq(MAX_BYTES - 2 - |name|, i => 'x');
    var e := name + "=" + value;
    assert es == [e] && es[..0] == [] && Size([]) == 0 && |e| == MAX_BYTES - 1;
    assert e[|name|] == EQUALS && e[0] == name[0];
    assert forall i :: 0 <= i < |e| ==> e[i] == if i < |name| then name[i] else if i == |name| then '=' else 'x';
    SplitOnceAt(name, value);
    assert NUL !in e;
    ImageBytes(es);
    assert LastWins([]) == map[];
  }

  lemma {:induction false} SplitOnceAt(name: string, value: string)
    requires EQUALS !in name
    ensures SplitOnce(name + "=" + value) == Some((name, value))
  {
    var e := name + "=" + value;
    if name == "" {
      assert e[1..] == value;
    } else {
      SplitOnceAt(name[1..], value);
      assert e[1..] == name[1..] + "=" + value;
      assert [name[0]] + name[1..] == name;
    }
  }

  /** Such an image, accepted by host and guest, can make every command fail: one variable
      X that uses the limit up leaves no room for HOME, whatever the account, the session
      and the arguments are, unless the request itself sets X. */
  lemma FullImageRefusesCommands(env: Environment, u: User, s: Session, request: Environment, a: Arguments)
    requires "X" !in request
    requires Effective(LastWins(FullImage("X")), env, u, s, request)
    ensures Legal(FullImage("X")) && !Fits(env, a)
  {
    FullImageIsLegal("X");
    var image := LastWins(FullImage("X"));
    assert Lookup(env, "X") == Some(image["X"]);
    assert Lookup(env, "HOME").Some?;
    BytesOfLarger(image, env - {"HOME"});
    BytesWithout(env, "HOME");
  }

  lemma NothingSurvives(image: Environment, u: User, s: Session, request: Environment)
    requires image.Keys == {"HOME"}
    ensures Surviving(image, u, s, request) == map[]
  {
    assert "HOME" in Identity(u);
  }

  /** But it need not: the account's HOME replaces one of the same size, and then the
      image costs nothing at all. */
  lemma FullImageMayBeHarmless(
    env: Environment, base: Environment, u: User, s: Session, request: Environment, a: Arguments)
    requires Effective(LastWins(FullImage("HOME")), env, u, s, request) && Effective(map[], base, u, s, request)
    ensures Legal(FullImage("HOME")) && (Fits(env, a) <==> Fits(base, a))
  {
    FullImageIsLegal("HOME");
    var image := LastWins(FullImage("HOME"));
    EffectiveIsSum(image, env, base, u, s, request);
    NothingSurvives(image, u, s, request);
    assert env == base;
  }

  lemma {:induction false} BytesOfLarger(small: Environment, large: Environment)
    requires forall name :: name in small ==> name in large && large[name] == small[name]
    ensures Bytes(small) <= Bytes(large)
    decreases |small|
  {
    if small != map[] {
      var name :| name in small;
      BytesOfLarger(small - {name}, large - {name});
      BytesWithout(small, name);
      BytesWithout(large, name);
    }
  }
}
