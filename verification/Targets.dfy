/** Names of connections, like tcp:host=localhost;port=33333: completed in src/client/client.h, taken apart
    in pyaseba/client/targets.py. */
module Targets {
  import opened Options

  /** Python's str.split for a separator of one character. */
  function Split(s: string, c: char): (r: seq<string>)
    ensures r != []
  {
    if s == "" then [""]
    else
      var rest := Split(s[1..], c);
      if s[0] == c then [""] + rest else [[s[0]] + rest[0]] + rest[1..]
  }

  type Parameters = map<string, string>

  function GetTargetProtocol(target: string): string {
    Split(target, ':')[0]
  }

  function ReadParameter(text: string): Option<(string, string)> {
    var ls := Split(text, '=');
    if |ls| == 2 then Some((ls[0], ls[1])) else None
  }

  /** dict(pairs): a later pair replaces an earlier one with the same key. */
  function ReadParameters(texts: seq<string>): Parameters {
    if texts == [] then map[]
    else
      var before, last := ReadParameters(texts[..|texts| - 1]), ReadParameter(texts[|texts| - 1]);
      if last.Some? then before[last.value.0 := last.value.1] else before
  }

  function GetTargetParameters(target: string): Parameters {
    var ls := Split(target, ':');
    if |ls| != 2 then map[] else ReadParameters(Split(ls[1], ';'))
  }

  predicate AreTargetsCompatible(target: string, other: string) {
    && GetTargetProtocol(target) == GetTargetProtocol(other)
    && var ps, qs := GetTargetParameters(target), GetTargetParameters(other);
       forall key :: key in ps && key in qs ==> ps[key] == qs[key]
  }

  // ---------------------------------------------------------------- completion

  function Assignment(kv: (string, string)): string {
    kv.0 + "=" + kv.1
  }

  function Joined(kwargs: seq<(string, string)>): string {
    if kwargs == [] then ""
    else if |kwargs| == 1 then Assignment(kwargs[0])
    else Joined(kwargs[..|kwargs| - 1]) + ";" + Assignment(kwargs[|kwargs| - 1])
  }

  /** Between what there is and what is added: a semicolon after parameters, otherwise a colon, unless it is
      there already. */
  function Separator(partial: string): string
    requires partial != ""
  {
    var back := partial[|partial| - 1];
    if '=' in partial then (if back != ';' then ";" else "") else (if back != ':' then ":" else "")
  }

  function Completed(partial: string, kwargs: seq<(string, string)>): string
    requires partial != "" || kwargs == []
  {
    if kwargs == [] then partial else partial + Separator(partial) + Joined(kwargs)
  }

  method CompleteTarget(partial: string, kwargs: seq<(string, string)>) returns (target: string)
    requires partial != "" || kwargs == []
    ensures target == Completed(partial, kwargs)
  {
    target := partial;
    var params, first := "", true;
    for i := 0 to |kwargs|
      invariant first == (i == 0) && params == Joined(kwargs[..i])
    {
      JoinedSnoc(kwargs, i);
      if !first {
        params := params + ";";
      }
      first := false;
      params := params + kwargs[i].0 + "=" + kwargs[i].1;
    }
    assert kwargs[..|kwargs|] == kwargs;
    if '=' in target {
      if !first && target[|target| - 1] != ';' {
        target := target + ";";
      }
    } else if !first && target[|target| - 1] != ':' {
      target := target + ":";
    }
    target := target + params;
  }

  lemma {:induction false} JoinedSnoc(kwargs: seq<(string, string)>, i: nat)
    requires i < |kwargs|
    ensures Joined(kwargs[..i + 1]) ==
            Joined(kwargs[..i]) + (if i == 0 then "" else ";") + kwargs[i].0 + "=" + kwargs[i].1
  {
    assert kwargs[..i + 1][..i] == kwargs[..i];
    if i > 0 {
      var a, b := Joined(kwargs[..i]), kwargs[i];
      assert a + ";" + (b.0 + "=" + b.1) == a + ";" + b.0 + "=" + b.1;
    }
  }

  // ---------------------------------------------------------------- splitting

  lemma {:induction false} SplitPlain(s: string, c: char)
    requires c !in s
    ensures Split(s, c) == [s]
  {
    if s != "" {
      assert s[0] in s && c !in s[1..] && [s[0]] + s[1..] == s;
      SplitPlain(s[1..], c);
    }
  }

  /** Splitting at a separator. */
  lemma {:induction false} SplitAt(a: string, c: char, b: string)
    ensures Split(a + [c] + b, c) == Split(a, c) + Split(b, c)
  {
    var s := a + [c] + b;
    if a == "" {
      assert s[1..] == b;
    } else {
      assert s[1..] == a[1..] + [c] + b;
      SplitAt(a[1..], c, b);
    }
  }

  /** Pieces do not contain the separator, and consist of characters of the text. */
  lemma {:induction false} PiecesAreParts(s: string, c: char, piece: string, x: char)
    requires piece in Split(s, c) && x in piece
    ensures x != c && x in s
  {
    if s != "" {
      var rest := Split(s[1..], c);
      if piece in rest {
        PiecesAreParts(s[1..], c, piece, x);
      } else if s[0] != c {
        assert piece == [s[0]] + rest[0];
        if x in rest[0] { PiecesAreParts(s[1..], c, rest[0], x); }
      }
    }
  }

  predicate Clean(s: string) {
    forall x :: x in s ==> x != ':' && x != ';' && x != '='
  }

  predicate AllClean(kwargs: seq<(string, string)>) {
    forall i :: 0 <= i < |kwargs| ==> Clean(kwargs[i].0) && Clean(kwargs[i].1)
  }

  ghost predicate DistinctKeys(kwargs: seq<(string, string)>) {
    forall i, j :: 0 <= i < j < |kwargs| ==> kwargs[i].0 != kwargs[j].0
  }

  function ToMap(kwargs: seq<(string, string)>): Parameters {
    if kwargs == [] then map[]
    else ToMap(kwargs[..|kwargs| - 1])[kwargs[|kwargs| - 1].0 := kwargs[|kwargs| - 1].1]
  }

  lemma {:induction false} ToMapHas(kwargs: seq<(string, string)>, i: nat)
    requires DistinctKeys(kwargs) && i < |kwargs|
    ensures kwargs[i].0 in ToMap(kwargs)
    ensures ToMap(kwargs)[kwargs[i].0] == kwargs[i].1
  {
    if i < |kwargs| - 1 { ToMapHas(kwargs[..|kwargs| - 1], i); }
  }

  /** A clean assignment is one parameter, and has neither colon nor semicolon. */
  lemma {:induction false} AssignmentReads(kv: (string, string))
    requires Clean(kv.0) && Clean(kv.1)
    ensures ReadParameter(Assignment(kv)) == Some(kv) && ':' !in Assignment(kv) && ';' !in Assignment(kv)
            && '=' in Assignment(kv)
  {
    assert Assignment(kv) == kv.0 + ['='] + kv.1;
    SplitAt(kv.0, '=', kv.1);
    SplitPlain(kv.0, '=');
    SplitPlain(kv.1, '=');
    assert Assignment(kv)[|kv.0|] == '=';
  }

  lemma {:induction false} ReadSnoc(texts: seq<string>, text: string)
    ensures ReadParameters(texts + [text]) ==
            var before, last := ReadParameters(texts), ReadParameter(text);
            if last.Some? then before[last.value.0 := last.value.1] else before
  {
  }

  /** The assignments, one by one. */
  function Assignments(kwargs: seq<(string, string)>): seq<string> {
    if kwargs == [] then [] else Assignments(kwargs[..|kwargs| - 1]) + [Assignment(kwargs[|kwargs| - 1])]
  }

  lemma {:induction false} JoinedSplits(kwargs: seq<(string, string)>)
    requires AllClean(kwargs) && kwargs != []
    ensures Split(Joined(kwargs), ';') == Assignments(kwargs)
    ensures ':' !in Joined(kwargs)
  {
    var n := |kwargs| - 1;
    AssignmentReads(kwargs[n]);
    SplitPlain(Assignment(kwargs[n]), ';');
    if n == 0 {
      assert kwargs[..0] == [] && Assignments([]) + [Assignment(kwargs[0])] == [Assignment(kwargs[0])];
    } else {
      JoinedSplits(kwargs[..n]);
      assert Joined(kwargs) == Joined(kwargs[..n]) + [';'] + Assignment(kwargs[n]);
      SplitAt(Joined(kwargs[..n]), ';', Assignment(kwargs[n]));
    }
  }

  lemma {:induction false} AssignmentsRead(texts: seq<string>, kwargs: seq<(string, string)>)
    requires AllClean(kwargs)
    ensures ReadParameters(texts + Assignments(kwargs)) == ReadParameters(texts) + ToMap(kwargs)
  {
    if kwargs == [] {
      assert texts + [] == texts;
    } else {
      var n := |kwargs| - 1;
      AssignmentsRead(texts, kwargs[..n]);
      AssignmentReads(kwargs[n]);
      var before, last := texts + Assignments(kwargs[..n]), Assignment(kwargs[n]);
      ReadSnoc(before, last);
      assert texts + Assignments(kwargs) == before + [last];
      assert ToMap(kwargs) == ToMap(kwargs[..n])[kwargs[n].0 := kwargs[n].1];
    }
  }

  /** Parameters after a list of texts are read, and override what the texts say. */
  lemma {:induction false} JoinedReads(texts: seq<string>, kwargs: seq<(string, string)>)
    requires AllClean(kwargs) && kwargs != []
    ensures ReadParameters(texts + Split(Joined(kwargs), ';')) == ReadParameters(texts) + ToMap(kwargs)
    ensures ':' !in Joined(kwargs)
  {
    JoinedSplits(kwargs);
    AssignmentsRead(texts, kwargs);
  }

  // ---------------------------------------------------------------- round trips

  /** A target that consists of a protocol and parameters. */
  function Target(protocol: string, parameters: string): string {
    protocol + ":" + parameters
  }

  lemma {:induction false} TargetSplits(protocol: string, parameters: string)
    requires Clean(protocol) && ':' !in parameters
    ensures Split(Target(protocol, parameters), ':') == [protocol, parameters]
  {
    assert Target(protocol, parameters) == protocol + [':'] + parameters;
    SplitAt(protocol, ':', parameters);
    SplitPlain(protocol, ':');
    SplitPlain(parameters, ':');
  }

  /** Completing a protocol, with clean parameters. */
  lemma {:induction false} CompletedProtocol(protocol: string, kwargs: seq<(string, string)>)
    requires Clean(protocol) && protocol != "" && AllClean(kwargs)
    ensures GetTargetProtocol(Completed(protocol, kwargs)) == protocol
    ensures GetTargetParameters(Completed(protocol, kwargs)) == ToMap(kwargs)
  {
    if kwargs == [] {
      SplitPlain(protocol, ':');
    } else {
      JoinedReads([], kwargs);
      assert [] + Split(Joined(kwargs), ';') == Split(Joined(kwargs), ';');
      CompletedIsTarget(protocol, kwargs);
      TargetSplits(protocol, Joined(kwargs));
    }
  }

  lemma {:induction false} CompletedIsTarget(protocol: string, kwargs: seq<(string, string)>)
    requires Clean(protocol) && protocol != "" && kwargs != []
    ensures Completed(protocol, kwargs) == Target(protocol, Joined(kwargs))
  {
    assert protocol[|protocol| - 1] in protocol;
  }

  /** Parameters that have been read never contain a delimiter. */
  lemma {:induction false} ReadIsClean(target: string, key: string)
    requires key in GetTargetParameters(target)
    ensures Clean(key)
    ensures Clean(GetTargetParameters(target)[key])
  {
    var ls := Split(target, ':');
    forall x | x in ls[1] ensures x != ':' { PiecesAreParts(target, ':', ls[1], x); }
    var texts := Split(ls[1], ';');
    forall text, x | text in texts && x in text ensures x != ';' && x != ':' { PiecesAreParts(ls[1], ';', text, x); }
    ReadAreClean(texts, key);
  }

  lemma {:induction false} ReadAreClean(texts: seq<string>, key: string)
    requires key in ReadParameters(texts)
    requires forall text, x :: text in texts && x in text ==> x != ';' && x != ':'
    ensures Clean(key) && Clean(ReadParameters(texts)[key])
  {
    var n := |texts| - 1;
    var last := ReadParameter(texts[n]);
    assert texts[n] in texts;
    if last.Some? && last.value.0 == key {
      var ls := Split(texts[n], '=');
      forall part, x | part in ls && x in part
        ensures x != '='
        ensures x != ';'
        ensures x != ':' { PiecesAreParts(texts[n], '=', part, x); }
      assert ls[0] in ls && ls[1] in ls;
    } else {
      ReadAreClean(texts[..n], key);
    }
  }

  /** Completing a protocol and reading the parameters back gives the parameters, exactly if none of them
      contains a delimiter. */
  lemma {:induction false} RoundTripIff(protocol: string, kwargs: seq<(string, string)>)
    requires Clean(protocol) && protocol != "" && DistinctKeys(kwargs)
    ensures GetTargetParameters(Completed(protocol, kwargs)) == ToMap(kwargs) <==> AllClean(kwargs)
  {
    if AllClean(kwargs) {
      CompletedProtocol(protocol, kwargs);
    } else if GetTargetParameters(Completed(protocol, kwargs)) == ToMap(kwargs) {
      forall i | 0 <= i < |kwargs| ensures Clean(kwargs[i].0) && Clean(kwargs[i].1) {
        ToMapHas(kwargs, i);
        ReadIsClean(Completed(protocol, kwargs), kwargs[i].0);
      }
    }
  }

  /** A target completed: the protocol stays, and the new parameters override the old ones, exactly if the
      old ones contain an equals sign or are empty. Otherwise a second colon makes all of them unreadable. */
  lemma {:induction false} CompletedTargetIff(protocol: string, parameters: string, kwargs: seq<(string, string)>)
    requires Clean(protocol) && ':' !in parameters && AllClean(kwargs)
    ensures GetTargetProtocol(Completed(Target(protocol, parameters), kwargs)) == protocol
    ensures GetTargetParameters(Completed(Target(protocol, parameters), kwargs)) ==
            GetTargetParameters(Target(protocol, parameters)) + ToMap(kwargs)
            <==> kwargs == [] || '=' in parameters || parameters == ""
  {
    TargetSplits(protocol, parameters);
    if kwargs != [] {
      if '=' in parameters || parameters == "" {
        AfterParameters(protocol, parameters, kwargs);
      } else {
        SecondColon(protocol, parameters, kwargs);
      }
    }
  }

  lemma {:induction false} SecondColon(protocol: string, parameters: string, kwargs: seq<(string, string)>)
    requires Clean(protocol) && ':' !in parameters && '=' !in parameters && parameters != "" && AllClean(kwargs)
             && kwargs != []
    ensures GetTargetProtocol(Completed(Target(protocol, parameters), kwargs)) == protocol
    ensures GetTargetParameters(Completed(Target(protocol, parameters), kwargs)) == map[]
    ensures ToMap(kwargs) != map[]
  {
    var target, joined := Target(protocol, parameters), Joined(kwargs);
    assert target[|target| - 1] == parameters[|parameters| - 1] && parameters[|parameters| - 1] in parameters;
    JoinedSplits(kwargs);
    TargetSplits(protocol, parameters);
    assert Completed(target, kwargs) == target + [':'] + joined;
    SplitAt(target, ':', joined);
    SplitPlain(joined, ':');
    assert kwargs[|kwargs| - 1].0 in ToMap(kwargs);
  }

  lemma {:induction false} AfterParameters(protocol: string, parameters: string, kwargs: seq<(string, string)>)
    requires Clean(protocol) && ':' !in parameters && AllClean(kwargs) && kwargs != []
    requires '=' in parameters || parameters == ""
    ensures GetTargetProtocol(Completed(Target(protocol, parameters), kwargs)) == protocol
    ensures GetTargetParameters(Completed(Target(protocol, parameters), kwargs)) ==
            ReadParameters(Split(parameters, ';')) + ToMap(kwargs)
  {
    CompletedSplits(protocol, parameters, kwargs);
    SeparatorAfter(protocol, parameters);
    if parameters == "" {
      AfterNothing("", kwargs);
    } else {
      AfterSemicolon(parameters, Separator(Target(protocol, parameters)), kwargs);
    }
  }

  lemma {:induction false} CompletedSplits(protocol: string, parameters: string, kwargs: seq<(string, string)>)
    requires Clean(protocol) && ':' !in parameters && AllClean(kwargs) && kwargs != []
    requires '=' in parameters || parameters == ""
    ensures var target := Target(protocol, parameters);
            Split(Completed(target, kwargs), ':') == [protocol, parameters + Separator(target) + Joined(kwargs)]
  {
    var separator := Separator(Target(protocol, parameters));
    SeparatorAfter(protocol, parameters);
    JoinedSplits(kwargs);
    TargetExtended(protocol, parameters, separator, Joined(kwargs));
    TargetSplits(protocol, parameters + separator + Joined(kwargs));
  }

  lemma {:induction false} TargetExtended(protocol: string, a: string, b: string, c: string)
    ensures Target(protocol, a) + b + c == Target(protocol, a + b + c)
  {
  }

  lemma {:induction false} AfterNothing(between: string, kwargs: seq<(string, string)>)
    requires between == "" && AllClean(kwargs) && kwargs != []
    ensures ReadParameters(Split("" + between + Joined(kwargs), ';')) == ReadParameters(Split("", ';')) + ToMap(kwargs)
  {
    assert "" + between + Joined(kwargs) == Joined(kwargs);
    JoinedReads([], kwargs);
    assert [] + Split(Joined(kwargs), ';') == Split(Joined(kwargs), ';');
    ReadSnoc([], "");
    assert [] + [""] == [""];
  }

  lemma {:induction false} SeparatorAfter(protocol: string, parameters: string)
    requires Clean(protocol) && ('=' in parameters || parameters == "")
    ensures Separator(Target(protocol, parameters)) ==
            if parameters == "" || parameters[|parameters| - 1] == ';' then "" else ";"
  {
  }

  /** With or without a semicolon at the end of the old parameters. */
  lemma {:induction false} AfterSemicolon(parameters: string, between: string, kwargs: seq<(string, string)>)
    requires parameters != "" && AllClean(kwargs) && kwargs != []
    requires between == if parameters[|parameters| - 1] == ';' then "" else ";"
    ensures ReadParameters(Split(parameters + between + Joined(kwargs), ';')) ==
            ReadParameters(Split(parameters, ';')) + ToMap(kwargs)
  {
    var joined := Joined(kwargs);
    if between == ";" {
      SplitAt(parameters, ';', joined);
      JoinedReads(Split(parameters, ';'), kwargs);
    } else {
      var front := parameters[..|parameters| - 1];
      assert parameters + between + joined == front + [';'] + joined && parameters == front + [';'] + "";
      SplitAt(front, ';', joined);
      SplitAt(front, ';', "");
      JoinedReads(Split(front, ';'), kwargs);
      ReadSnoc(Split(front, ';'), "");
    }
  }

  /** Completing twice: the second parameters override the first. */
  lemma {:induction false} CompletedTwice(protocol: string, first: seq<(string, string)>, second: seq<(string, string)>)
    requires Clean(protocol) && protocol != "" && AllClean(first) && AllClean(second)
    ensures var once := Completed(protocol, first);
            once != "" && GetTargetProtocol(Completed(once, second)) == protocol &&
            GetTargetParameters(Completed(once, second)) == ToMap(first) + ToMap(second)
  {
    CompletedProtocol(protocol, first);
    if first == [] {
      CompletedProtocol(protocol, second);
    } else {
      JoinedReads([], first);
      assert protocol[|protocol| - 1] in protocol;
      assert Completed(protocol, first) == Target(protocol, Joined(first));
      CompletedTargetIff(protocol, Joined(first), second);
    }
  }

  // ---------------------------------------------------------------- compatibility

  /** Compatibility is reflexive and symmetric. */
  lemma {:induction false} CompatibleIsSymmetric(a: string, b: string)
    ensures AreTargetsCompatible(a, a)
    ensures (AreTargetsCompatible(a, b) <==> AreTargetsCompatible(b, a))
  {
  }

  /** It is not transitive: a target without parameters is compatible with any of its protocol. */
  lemma {:induction false} CompatibleIsNotTransitive(protocol: string, key: string, v: string, w: string)
    requires Clean(protocol) && protocol != "" && Clean(key) && Clean(v) && Clean(w) && v != w
    ensures var a, b := Completed(protocol, [(key, v)]), Completed(protocol, [(key, w)]);
            AreTargetsCompatible(a, protocol) && AreTargetsCompatible(protocol, b) && !AreTargetsCompatible(a, b)
  {
    CompletedProtocol(protocol, [(key, v)]);
    CompletedProtocol(protocol, [(key, w)]);
    CompletedProtocol(protocol, []);
    var a, b := Completed(protocol, [(key, v)]), Completed(protocol, [(key, w)]);
    assert [(key, v)][..0] == [] && [(key, w)][..0] == [];
    assert GetTargetParameters(a) == map[key := v] && GetTargetParameters(b) == map[key := w];
    assert key in GetTargetParameters(a) && key in GetTargetParameters(b);
  }

  /** Two targets are compatible exactly if they have the same protocol and agree on the parameters they share. */
  lemma {:induction false} CompatibleTargets(
    protocol: string, first: seq<(string, string)>, other: string, second: seq<(string, string)>)
    requires Clean(protocol) && protocol != "" && Clean(other) && other != "" && AllClean(first) && AllClean(second)
    ensures AreTargetsCompatible(Completed(protocol, first), Completed(other, second)) <==>
            && protocol == other
            && forall key :: key in ToMap(first) && key in ToMap(second) ==> ToMap(first)[key] == ToMap(second)[key]
  {
    CompletedProtocol(protocol, first);
    CompletedProtocol(other, second);
  }

  /** A target is compatible with a completion of it, exactly if the completion changes no parameter. */
  lemma {:induction false} CompatibleIff(protocol: string, first: seq<(string, string)>, second: seq<(string, string)>)
    requires Clean(protocol) && protocol != "" && AllClean(first) && AllClean(second)
    ensures var once := Completed(protocol, first);
            once != "" &&
            (AreTargetsCompatible(once, Completed(once, second))
             <==> forall key :: key in ToMap(first) && key in ToMap(second) ==> ToMap(first)[key] == ToMap(second)[key])
  {
    CompletedProtocol(protocol, first);
    CompletedTwice(protocol, first, second);
  }
}
