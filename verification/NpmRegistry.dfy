/** The registry as the publisher sees it: four atomic commands over two maps, with a client that
    can be killed before any of them. */
module NpmRegistry {
  import opened Options

  /** `(name, version)` to integrity, and `(name, tag)` to version. */
  datatype Reg = Reg(versions: map<(string, string), string>, tags: map<(string, string), string>)

  /** A tag never dangles. */
  ghost predicate RegOk(r: Reg) {
    forall k :: k in r.tags ==> (k.0, r.tags[k]) in r.versions
  }

  /** What a command gives back. `Killed`: the client died before issuing it. */
  datatype Reply<+T> = Killed | NotFound | Reply(value: T)

  function TagOf(r: Reg, name: string, tag: string): Option<string> {
    if (name, tag) in r.tags then Some(r.tags[(name, tag)]) else None
  }

  class Registry {
    var versions: map<(string, string), string>
    var tags: map<(string, string), string>
    /** How many more commands the client lives to issue. */
    var life: nat

    ghost function State(): Reg
      reads this
    {
      Reg(versions, tags)
    }

    ghost predicate Valid()
      reads this
    {
      RegOk(State())
    }

    constructor (r: Reg, life: nat)
      requires RegOk(r)
      ensures State() == r && this.life == life && Valid()
    {
      versions, tags, this.life := r.versions, r.tags, life;
    }

    /** `npm view name@version dist.integrity`: absence is an answer, not an error. */
    method View(name: string, version: string) returns (r: Reply<Option<string>>)
      modifies this`life
      ensures r.Killed? <==> old(life) == 0
      ensures life == if old(life) == 0 then 0 else old(life) - 1
      ensures !r.NotFound?
      ensures r.Reply? ==> r.value == if (name, version) in versions then Some(versions[(name, version)]) else None
    {
      if life == 0 { return Killed; }
      life := life - 1;
      r := Reply(if (name, version) in versions then Some(versions[(name, version)]) else None);
    }

    /** `npm publish --tag`: the version and the tag appear together; a taken version is refused. */
    method Publish(name: string, version: string, integrity: string, tag: string) returns (r: Reply<()>)
      requires Valid()
      modifies this
      ensures Valid()
      ensures r.Killed? <==> old(life) == 0
      ensures life == if old(life) == 0 then 0 else old(life) - 1
      ensures r.NotFound? <==> old(life) > 0 && (name, version) in old(versions)
      ensures State() ==
        if r.Reply? then Reg(old(versions)[(name, version) := integrity], old(tags)[(name, tag) := version]) else old(State())
    {
      if life == 0 { return Killed; }
      life := life - 1;
      if (name, version) in versions { return NotFound; }
      versions, tags := versions[(name, version) := integrity], tags[(name, tag) := version];
      r := Reply(());
    }

    /** `npm dist-tag ls name`, then looking one tag up; a name never published is an error. */
    method TagVersion(name: string, tag: string) returns (r: Reply<Option<string>>)
      modifies this`life
      ensures r.Killed? <==> old(life) == 0
      ensures life == if old(life) == 0 then 0 else old(life) - 1
      ensures r.NotFound? <==> old(life) > 0 && forall v :: (name, v) !in versions
      ensures r.Reply? ==> r.value == TagOf(State(), name, tag)
    {
      if life == 0 { return Killed; }
      life := life - 1;
      if !(exists k <- versions.Keys :: k.0 == name) {
        assert forall v :: (name, v) in versions ==> (name, v) in versions.Keys && (name, v).0 == name;
        return NotFound;
      }
      r := Reply(if (name, tag) in tags then Some(tags[(name, tag)]) else None);
    }

    /** `npm dist-tag add name@version tag`: the version must exist. */
    method TagAdd(name: string, version: string, tag: string) returns (r: Reply<()>)
      requires Valid()
      modifies this
      ensures Valid()
      ensures r.Killed? <==> old(life) == 0
      ensures life == if old(life) == 0 then 0 else old(life) - 1
      ensures r.NotFound? <==> old(life) > 0 && (name, version) !in versions
      ensures State() == if r.Reply? then Reg(old(versions), old(tags)[(name, tag) := version]) else old(State())
    {
      if life == 0 { return Killed; }
      life := life - 1;
      if (name, version) !in versions { return NotFound; }
      tags := tags[(name, tag) := version];
      r := Reply(());
    }
  }
}
