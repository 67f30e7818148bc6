/** Hierarchical loggers (core/logging/factory.py, core/logging/logger.py): the parent chains that
    the factory wires, and what one log call delivers to the sinks. */
module Logging {
  import opened Wrappers

  /** Sinks and log records are only passed along. */
  type Sink = nat

  datatype LogEntry = LogEntry(level: int, logger: string, message: string)

  const DEBUG := 10
  const CONSOLE: Sink := 0

  /** One call of `emit`. */
  type Emission = (Sink, LogEntry)

  /** The entry goes to each of the sinks once, in order. */
  predicate Delivers(sinks: seq<Sink>, entry: LogEntry, emitted: seq<Emission>) {
    |emitted| == |sinks| && forall k :: 0 <= k < |sinks| ==> emitted[k].0 == sinks[k] && emitted[k].1 == entry
  }

  lemma DeliversAppend(a: seq<Sink>, toA: seq<Emission>, b: seq<Sink>, toB: seq<Emission>, entry: LogEntry)
    requires Delivers(a, entry, toA) && Delivers(b, entry, toB)
    ensures Delivers(a + b, entry, toA + toB)
  {
  }

  // ----- names

  /** `p` is what remains of `name` when one or more dotted parts are cut off its end. */
  predicate DottedPrefix(p: string, name: string) {
    |p| < |name| && p == name[..|p|] && name[|p|] == '.'
  }

  /** `name.rsplit('.', 1)` */
  function ParentName(name: string): (r: Option<string>)
    ensures r.Some? ==> DottedPrefix(r.value, name)
    ensures r.Some? ==> forall p :: DottedPrefix(p, name) ==> |p| <= |r.value|
    ensures r.None? ==> forall p :: !DottedPrefix(p, name)
  {
    CutAtLastDot(name, |name|)
  }

  function CutAtLastDot(name: string, n: nat): (r: Option<string>)
    requires n <= |name|
    ensures r.Some? ==> DottedPrefix(r.value, name) && |r.value| < n
    ensures r.Some? ==> forall p :: DottedPrefix(p, name) && |p| < n ==> |p| <= |r.value|
    ensures r.None? ==> forall p :: DottedPrefix(p, name) ==> n <= |p|
  {
    if n == 0 then None
    else if name[n - 1] == '.' then Some(name[..n - 1])
    else CutAtLastDot(name, n - 1)
  }

  lemma PrefixOfPrefix(p: string, q: string, name: string)
    requires DottedPrefix(p, name) && DottedPrefix(q, name) && |p| < |q|
    ensures DottedPrefix(p, q)
  {
    assert q[|p|] == name[..|q|][|p|];
    assert q[..|p|] == name[..|q|][..|p|];
  }

  lemma PrefixTransitive(p: string, q: string, name: string)
    requires DottedPrefix(p, q) && DottedPrefix(q, name)
    ensures DottedPrefix(p, name)
  {
    assert name[..|q|][|p|] == q[|p|];
    assert name[..|p|] == name[..|q|][..|p|];
  }

  /** `_find_parent`: the longest dotted prefix of the name that has a logger. */
  function FindParent(known: set<string>, name: string): (r: Option<string>)
    ensures r.Some? ==> r.value in known && DottedPrefix(r.value, name)
    ensures forall p :: p in known && DottedPrefix(p, name) ==> r.Some? && |p| <= |r.value|
    decreases |name|
  {
    match ParentName(name)
    case None => None
    case Some(p) =>
      if p in known then Some(p)
      else
        var r := FindParent(known, p);
        assert forall q :: q in known && DottedPrefix(q, name) ==> DottedPrefix(q, p) by {
          forall q | q in known && DottedPrefix(q, name)
            ensures DottedPrefix(q, p)
          {
            assert |q| != |p|;
            PrefixOfPrefix(q, p, name);
          }
        }
        assert r.Some? ==> DottedPrefix(r.value, name) by {
          if r.Some? { PrefixTransitive(r.value, p, name); }
        }
        r
  }

  // ----- loggers

  /** How many of the sinks raise on the entry. */
  function Raising(sinks: seq<Sink>, entry: LogEntry, raises: (Sink, LogEntry) -> bool): nat {
    if sinks == [] then 0
    else
      var n := |sinks| - 1;
      Raising(sinks[..n], entry, raises) + if raises(sinks[n], entry) then 1 else 0
  }

  lemma {:induction false} RaisingAppend(a: seq<Sink>, b: seq<Sink>, entry: LogEntry, raises: (Sink, LogEntry) -> bool)
    ensures Raising(a + b, entry, raises) == Raising(a, entry, raises) + Raising(b, entry, raises)
  {
    if b == [] {
      assert a + b == a;
    } else {
      var n := |b| - 1;
      RaisingAppend(a, b[..n], entry, raises);
      assert (a + b)[..|a| + n] == a + b[..n];
    }
  }

  class Logger {
    const name: string
    const parent: Logger?
    var level: Option<int>
    var sinks: seq<Sink>

    constructor (name: string, level: Option<int>, sinks: seq<Sink>, parent: Logger?)
      ensures this.name == name && this.parent == parent && this.level == level && this.sinks == sinks
    {
      this.name, this.parent, this.level, this.sinks := name, parent, level, sinks;
    }

    /** The parent chain is finite: each parent's name is a proper dotted prefix. */
    ghost predicate Chained()
      decreases |name|
    {
      parent != null ==> DottedPrefix(parent.name, name) && parent.Chained()
    }

    /** This logger and the ones above it. */
    ghost function Ancestry(): set<Logger>
      requires Chained()
      decreases |name|
    {
      {this} + if parent == null then {} else parent.Ancestry()
    }

    lemma AncestryExists()
      requires Chained()
      ensures forall l :: l in Ancestry() ==> allocated(l)
      decreases |name|
    {
      if parent != null {
        parent.AncestryExists();
      }
    }

    /** The sinks along the parent chain, this logger's first. */
    ghost function ChainSinks(): seq<Sink>
      requires Chained()
      reads Ancestry()
      decreases |name|
    {
      sinks + if parent == null then [] else parent.ChainSinks()
    }

    /** The first level set along the parent chain. */
    function EffectiveLevel(): int
      requires Chained()
      reads Ancestry()
      decreases |name|
    {
      if level.Some? then level.value
      else if parent != null then parent.EffectiveLevel()
      else DEBUG
    }

    method SetLevel(level: int)
      modifies this`level
      ensures this.level == Some(level)
    {
      this.level := Some(level);
    }

    /** The entry is emitted to every sink along the parent chain, whichever of them raise;
        `emitted` lists the calls of `emit` in order, and each error is swallowed. */
    method Dispatch(entry: LogEntry, raises: (Sink, LogEntry) -> bool) returns (emitted: seq<Emission>, swallowed: nat)
      requires Chained()
      ensures Delivers(ChainSinks(), entry, emitted) && swallowed == Raising(ChainSinks(), entry, raises)
      decreases |name|
    {
      emitted, swallowed := EmitHere(entry, raises);
      if parent != null {
        var above, more := parent.Dispatch(entry, raises);
        RaisingAppend(sinks, parent.ChainSinks(), entry, raises);
        DeliversAppend(sinks, emitted, parent.ChainSinks(), above, entry);
        emitted, swallowed := emitted + above, swallowed + more;
      } else {
        assert ChainSinks() == sinks;
      }
    }

    /** This logger's own sinks. */
    method EmitHere(entry: LogEntry, raises: (Sink, LogEntry) -> bool) returns (emitted: seq<Emission>, swallowed: nat)
      ensures Delivers(sinks, entry, emitted) && swallowed == Raising(sinks, entry, raises)
    {
      emitted, swallowed := [], 0;
      for k := 0 to |sinks|
        invariant Delivers(sinks[..k], entry, emitted) && swallowed == Raising(sinks[..k], entry, raises)
      {
        assert sinks[..k + 1][..k] == sinks[..k];
        emitted := emitted + [(sinks[k], entry)];
        if raises(sinks[k], entry) {
          swallowed := swallowed + 1;
        }
      }
      assert sinks[..|sinks|] == sinks;
    }

    /** Only the level of the logger that is called decides whether an entry goes out; the levels
        of its ancestors do not stop it on the way up.  What goes out is what was logged. */
    method Log(level: int, message: string, raises: (Sink, LogEntry) -> bool) returns (emitted: seq<Emission>)
      requires Chained()
      ensures if level < old(EffectiveLevel()) then emitted == []
              else Delivers(old(ChainSinks()), LogEntry(level, name, message), emitted)
    {
      var threshold := EffectiveLevel();
      if level < threshold {
        return [];
      }
      AncestryExists();
      var swallowed;
      emitted, swallowed := Dispatch(LogEntry(level, name, message), raises);
      assert ChainSinks() == old(ChainSinks());
    }

    /** This logger and the ones above it, in order. */
    ghost function Lineage(): (line: seq<Logger>)
      requires Chained()
      ensures |line| > 0 && line[0] == this
      decreases |name|
    {
      [this] + if parent == null then [] else parent.Lineage()
    }

    /** The effective level is that of the nearest logger of the line that has one, if any has. */
    lemma NearestLevel()
      requires Chained()
      ensures forall k :: 0 <= k < |Lineage()| - 1 ==> Lineage()[k].parent == Lineage()[k + 1]
      ensures Lineage()[|Lineage()| - 1].parent == null
      ensures (exists k :: 0 <= k < |Lineage()| && Lineage()[k].level == Some(EffectiveLevel())
                           && forall j :: 0 <= j < k ==> Lineage()[j].level == None)
           || (EffectiveLevel() == DEBUG && forall k :: 0 <= k < |Lineage()| ==> Lineage()[k].level == None)
      decreases |name|
    {
      if parent != null {
        parent.NearestLevel();
        var above := parent.Lineage();
        assert Lineage() == [this] + above;
        if level.None? {
          if k :| 0 <= k < |above| && above[k].level == Some(parent.EffectiveLevel())
                  && forall j :: 0 <= j < k ==> above[j].level == None {
            assert Lineage()[k + 1] == above[k];
          }
        } else {
          assert Lineage()[0].level == Some(EffectiveLevel());
        }
      } else {
        assert Lineage() == [this];
      }
    }

    /** A child delivers where its parent delivers, at its parent's level of the moment. */
    method Child(suffix: string) returns (child: Logger)
      requires Chained()
      ensures fresh(child) && child.Chained() && child.ChainSinks() == ChainSinks()
      ensures child.name == name + "." + suffix && child.level == level
    {
      child := new Logger(name + "." + suffix, level, [], this);
      assert child.name[..|name|] == name && child.name[|name|] == '.';
    }
  }

  // ----- the factory

  class LoggerFactory {
    const defaultLevel: int
    const defaultSinks: seq<Sink>
    var loggers: map<string, Logger>

    constructor (level: int, sinks: seq<Sink>)
      ensures Valid() && Plain() && loggers == map[]
      ensures defaultLevel == level && defaultSinks == if sinks == [] then [CONSOLE] else sinks
    {
      defaultLevel := level;
      defaultSinks := if sinks == [] then [CONSOLE] else sinks;
      loggers := map[];
    }

    /** Loggers are filed under their names, parents are filed too, and every parent is the filed
        logger of a proper dotted prefix; so all parent chains are finite. */
    ghost predicate Valid()
      reads this, loggers.Values
    {
      forall n {:trigger Wired(loggers[n], n)} :: n in loggers ==> Wired(loggers[n], n)
    }

    ghost predicate Wired(l: Logger, n: string)
      reads this, l
    {
      && l.name == n && l.Chained() && l.level.Some?
      && (l.parent != null ==> l.parent.name in loggers && loggers[l.parent.name] == l.parent)
    }

    /** Nobody has added a sink: roots have the default sinks and nobody else has any. */
    ghost predicate Plain()
      reads this, loggers.Values
    {
      forall n :: n in loggers ==> loggers[n].sinks == if loggers[n].parent == null then defaultSinks else []
    }

    /** The cached logger, or a new one below the nearest existing ancestor. */
    method Get(name: string) returns (logger: Logger)
      requires Valid()
      modifies this`loggers
      ensures Valid() && name in loggers && loggers[name] == logger
      ensures old(Plain()) ==> Plain()
      ensures forall n :: n in old(loggers) ==> n in loggers && loggers[n] == old(loggers)[n]
      ensures loggers.Keys == old(loggers.Keys) + {name}
      ensures name !in old(loggers) ==>
                && fresh(logger) && logger.level == Some(defaultLevel)
                && match FindParent(old(loggers.Keys), name)
                   case None => logger.parent == null && logger.sinks == defaultSinks
                   case Some(p) => logger.parent == old(loggers)[p] && logger.sinks == []
    {
      if name in loggers {
        return loggers[name];
      }
      var parent := FindParent(loggers.Keys, name);
      if parent.None? {
        logger := new Logger(name, Some(defaultLevel), defaultSinks, null);
      } else {
        assert Wired(loggers[parent.value], parent.value);
        logger := new Logger(name, Some(defaultLevel), [], loggers[parent.value]);
      }
      ghost var before := loggers;
      loggers := loggers[name := logger];
      forall n | n in loggers
        ensures Wired(loggers[n], n)
      {
        if n != name {
          assert before[n] == loggers[n] && old(Wired(loggers[n], n));
        }
      }
    }

    /** While nobody has added a sink, the sinks along every parent chain are exactly the default
        ones, in order, each once, whatever was created in which order. */
    lemma DefaultSinksOnce(n: string)
      requires Valid() && Plain() && n in loggers
      ensures loggers[n].Chained() && loggers[n].ChainSinks() == defaultSinks
      decreases |n|
    {
      assert Wired(loggers[n], n);
      var parent := loggers[n].parent;
      if parent != null {
        DefaultSinksOnce(parent.name);
      }
    }

    /** An entry that passes the level of its logger reaches each default sink exactly once, in
        order, whichever sinks raise and whatever the levels of the ancestors; one that does not
        pass reaches none. */
    method Log(name: string, level: int, message: string, raises: (Sink, LogEntry) -> bool)
        returns (emitted: seq<Emission>)
      requires Valid() && Plain()
      modifies this`loggers
      ensures Valid() && Plain() && name in loggers && loggers[name].level.Some?
      ensures if level < loggers[name].level.value then emitted == []
              else Delivers(defaultSinks, LogEntry(level, name, message), emitted)
    {
      var logger := Get(name);
      DefaultSinksOnce(name);
      OwnLevel(name);
      assert Wired(logger, name);
      emitted := logger.Log(level, message, raises);
    }

    /** Overriding the level of one logger changes the effective level of no other: the factory
        gives every logger a level of its own. */
    method SetLevel(name: string, level: int)
      requires Valid()
      modifies this`loggers, loggers.Values`level
      ensures Valid() && name in loggers && loggers[name].level == Some(level)
      ensures old(Plain()) ==> Plain()
      ensures forall n :: n in old(loggers) && n != name ==>
                n in loggers && loggers[n] == old(loggers)[n] && loggers[n].level == old(loggers[n].level)
    {
      var logger := Get(name);
      forall n | n in loggers && n != name
        ensures loggers[n] != logger
      {
        assert Wired(loggers[n], n) && Wired(logger, name);
      }
      label found:
      logger.SetLevel(level);
      forall n | n in loggers
        ensures Wired(loggers[n], n)
      {
        assert old@found(Wired(loggers[n], n));
      }
    }

    lemma OwnLevel(n: string)
      requires Valid() && n in loggers
      ensures loggers[n].Chained() && loggers[n].level == Some(loggers[n].EffectiveLevel())
    {
      assert Wired(loggers[n], n);
    }
  }
}
