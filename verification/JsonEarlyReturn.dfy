/** A callback that returns early cuts the run short and does nothing else: the calls made are those
    of a run whose callbacks never return early, up to and including the first one at which the
    callback gives a value. */
module JsonEarlyReturn {
  import opened Bytes
  import opened JsonString
  import opened JsonSpec
  import opened JsonTheorems

  /** The run `full`, cut at its first call from number `from` on that makes `stop` give a value. */
  function Cut<T>(stop: Callback<T>, full: Parsed<T>, from: nat): Parsed<T>
    decreases |full.log| - from
  {
    if from >= |full.log| then full
    else
      var log := full.log[..from + 1];
      if stop(log).Some? then Parsed(Stopped(stop(log).value), log) else Cut(stop, full, from + 1)
  }

  /** A run that goes on after `part` is cut inside `part`, or after it. */
  lemma {:induction false} CutThrough<T>(stop: Callback<T>, part: Parsed<T>, full: Parsed<T>, from: nat)
    requires part.log <= full.log && from <= |part.log| && !part.outcome.Stopped?
    ensures var c := Cut(stop, part, from);
      if c.outcome.Stopped? then Cut(stop, full, from) == c
      else c == part && Cut(stop, full, from) == Cut(stop, full, |part.log|)
    decreases |part.log| - from
  {
    if from < |part.log| {
      assert full.log[..from + 1] == part.log[..from + 1];
      CutThrough(stop, part, full, from + 1);
    }
  }

  /** `r` is the run `full` cut after the calls `log`, and `full` goes on from `log`. */
  predicate IsCut<T(==)>(stop: Callback<T>, r: Parsed<T>, full: Parsed<T>, log: seq<Event>) {
    log <= full.log && !full.outcome.Stopped? && r == Cut(stop, full, |log|)
  }

  lemma {:induction false} ReportCut<T(!new)>(stop: Callback<T>, log: seq<Event>, e: Event, full: Parsed<T>,
                                              r: Parsed<T>)
    requires log + [e] <= full.log && !full.outcome.Stopped?
    requires r == if stop(log + [e]).Some? then Parsed(Stopped(stop(log + [e]).value), log + [e])
                  else Cut(stop, full, |log| + 1)
    ensures IsCut(stop, r, full, log)
  {
    assert full.log[..|log| + 1] == log + [e];
  }

  lemma {:induction false} ValueCut<T(!new)>(first: Byte, s: seq<Byte>, total: int, stop: Callback<T>,
                                             quiet: Callback<T>, log: seq<Event>)
    requires Silent(quiet)
    ensures IsCut(stop, ParseValue(first, s, total, stop, log), ParseValue(first, s, total, quiet, log), log)
    decreases |s|, 3
  {
    if first == LBRACE {
      MembersCut(s, total, stop, quiet, log, true);
    } else if first == LBRACKET {
      ItemsCut(s, total, stop, quiet, log, true);
    } else if first == QUOTE {
      TextCut(s, total, stop, quiet, log);
    }
  }

  lemma TextCut<T(!new)>(s: seq<Byte>, total: int, stop: Callback<T>, quiet: Callback<T>, log: seq<Event>)
    requires Silent(quiet)
    ensures IsCut(stop, ParseText(s, total, stop, log), ParseText(s, total, quiet, log), log)
  {
    if ReadString(s, []).Some? {
      var r := ReadString(s, []).value;
      ReportCut(stop, log, Event(false, r.text, Before(total, s), total - |r.rest|),
        ParseText(s, total, quiet, log), ParseText(s, total, stop, log));
    }
  }

  lemma {:induction false} ItemsCut<T(!new)>(s: seq<Byte>, total: int, stop: Callback<T>, quiet: Callback<T>,
                                             log: seq<Event>, first: bool)
    requires Silent(quiet)
    ensures IsCut(stop, ParseItems(s, total, stop, log, first), ParseItems(s, total, quiet, log, first), log)
    decreases |s|, 2
  {
    var t := SkipSpace(s);
    if t != [] && !(first && t[0] == RBRACKET) {
      ValueCut(t[0], t[1..], total, stop, quiet, log);
      var part := ParseValue(t[0], t[1..], total, quiet, log);
      var full := ParseItems(s, total, quiet, log, first);
      if part.outcome.Done? && part.outcome.next != [] && part.outcome.next[0] == COMMA {
        ItemsCut(part.outcome.next[1..], total, stop, quiet, part.log, false);
      }
      CutThrough(stop, part, full, |log|);
    }
  }

  lemma {:induction false} MembersCut<T(!new)>(s: seq<Byte>, total: int, stop: Callback<T>, quiet: Callback<T>,
                                               log: seq<Event>, first: bool)
    requires Silent(quiet)
    ensures IsCut(stop, ParseMembers(s, total, stop, log, first), ParseMembers(s, total, quiet, log, first), log)
    decreases |s|, 2
  {
    var t := SkipSpace(s);
    if t != [] && t[0] == QUOTE {
      MemberCut(t[1..], total - |s|, total, stop, quiet, log);
      var part := ParseMember(t[1..], total - |s|, total, quiet, log);
      var full := ParseMembers(s, total, quiet, log, first);
      if part.outcome.Done? && part.outcome.next != [] && part.outcome.next[0] == COMMA {
        MembersCut(part.outcome.next[1..], total, stop, quiet, part.log, false);
      }
      CutThrough(stop, part, full, |log|);
    }
  }

  lemma {:induction false} MemberCut<T(!new)>(s: seq<Byte>, start: int, total: int, stop: Callback<T>,
                                              quiet: Callback<T>, log: seq<Event>)
    requires Silent(quiet)
    ensures IsCut(stop, ParseMember(s, start, total, stop, log), ParseMember(s, start, total, quiet, log), log)
    decreases |s|, 4
  {
    if ReadString(s, []).Some? {
      var r := ReadString(s, []).value;
      var e := Event(true, r.text, start, total - |r.rest|);
      MemberValueCut(r.rest, total, stop, quiet, log + [e], start + 1);
      AfterKeyIs(e, r.rest, total, stop, log);
      AfterKeyIs(e, r.rest, total, quiet, log);
      ReportCut(stop, log, e, ParseMember(s, start, total, quiet, log), ParseMember(s, start, total, stop, log));
    }
  }

  lemma {:induction false} MemberValueCut<T(!new)>(s: seq<Byte>, total: int, stop: Callback<T>, quiet: Callback<T>,
                                                   log: seq<Event>, at: int)
    requires Silent(quiet)
    ensures IsCut(stop, ParseMemberValue(s, total, stop, log, at), ParseMemberValue(s, total, quiet, log, at), log)
    decreases |s|, 3
  {
    var t := SkipSpace(s);
    if t != [] && t[0] == COLON {
      var u := SkipSpace(t[1..]);
      if u != [] {
        ValueCut(u[0], u[1..], total, stop, quiet, log);
      }
    }
  }

  /** For any callbacks: the run is the silent run, cut at the first early return. */
  lemma EarlyReturnIsACut<T(!new)>(s: seq<Byte>, total: int, stop: Callback<T>, quiet: Callback<T>)
    requires Silent(quiet)
    ensures ParseJson(s, total, stop) == Cut(stop, ParseJson(s, total, quiet), 0)
  {
    var t := SkipSpace(s);
    if t != [] {
      ValueCut(t[0], t[1..], total, stop, quiet, []);
    }
  }
}
