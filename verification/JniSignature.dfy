/** Method descriptors of the JVM and the parser that splits them into types. */
module JniSignature {

  const MAX_PARAMS: nat := 16
  const WIDTH: nat := 64

  // ---- descriptors, as the JVM specification prints them

  predicate Base(t: string) {
    |t| == 1 && t[0] in "BCDFIJSZ"
  }

  predicate Object(t: string) {
    |t| >= 3 && t[0] == 'L' && t[|t| - 1] == ';' && forall i :: 0 <= i < |t| - 1 ==> t[i] != ';'
  }

  /** A type, behind any number of array brackets. */
  predicate FieldType(t: string) {
    Base(t) || Object(t) || (t != "" && t[0] == '[' && FieldType(t[1..]))
  }

  function Depth(t: string): nat {
    if t != "" && t[0] == '[' then 1 + Depth(t[1..]) else 0
  }

  function Concat(params: seq<string>): string {
    if params == [] then "" else params[0] + Concat(params[1..])
  }

  function Print(params: seq<string>, ret: string): string {
    "(" + Concat(params) + ")" + ret
  }

  // ---- what the parser does

  /** The first place of c, or the length. */
  function IndexOf(s: string, c: char): (i: nat)
    ensures i <= |s|
    ensures i < |s| ==> s[i] == c
    ensures forall k :: 0 <= k < i ==> s[k] != c
  {
    if s == "" then 0 else if s[0] == c then 0 else 1 + IndexOf(s[1..], c)
  }

  function Cut(s: string, n: nat): string {
    if |s| > n then s[..n] else s
  }

  /** One type off the front, no type, or a read past the end of the string. */
  datatype Piece = Taken(t: string, rest: string) | Malformed | PastEnd

  function TakeOne(p: string): (r: Piece)
    requires p != ""
    ensures r.Taken? ==> |r.rest| < |p|
  {
    if p[0] == 'L' then
      var e := IndexOf(p, ';');
      if e == |p| then Malformed else Taken(Cut(p[..e + 1], WIDTH - 1), p[e + 1..])
    else if p[0] == '[' then
      var q := p[1..];
      if q != "" && q[0] == 'L' then
        var e := IndexOf(q, ';');
        if e == |q| then Malformed else Taken("[" + Cut(q[..e + 1], WIDTH - 2), q[e + 1..])
      else if q == "" then PastEnd
      else Taken("[" + q[..1], q[1..])
    else Taken(p[..1], p[1..])
  }

  datatype Outcome = Parsed(params: seq<string>, ret: string) | Rejected | Overrun

  function ParseParams(p: string, params: seq<string>): (r: Outcome)
    decreases |p|
  {
    if p == "" || p[0] == ')' || |params| >= MAX_PARAMS then
      if p != "" && p[0] == ')' then Parsed(params, Cut(p[1..], WIDTH - 1)) else Rejected
    else
      match TakeOne(p)
      case Taken(t, rest) => ParseParams(rest, params + [t])
      case Malformed => Rejected
      case PastEnd => Overrun
  }

  /**
    The types in the structure when parsing stops, and how many of them are counted: an
    array without an end has left its bracket behind the counted ones.
   */
  function Contents(p: string, params: seq<string>): (r: (seq<string>, nat))
    decreases |p|
  {
    if p == "" || p[0] == ')' || |params| >= MAX_PARAMS then (params, |params|)
    else
      match TakeOne(p)
      case Taken(t, rest) => Contents(rest, params + [t])
      case Malformed => (params + [LeftBehind(p)], |params|)
      case PastEnd => (params, |params|)
  }

  function LeftBehind(p: string): string {
    if p != "" && p[0] == '[' then "[" else ""
  }

  /** Filled up with empty types. */
  function Padded(types: seq<string>): (r: seq<string>)
    requires |types| <= MAX_PARAMS
    ensures |r| == MAX_PARAMS
  {
    types + seq(MAX_PARAMS - |types|, _ => "")
  }

  /** All that a descriptor leaves in the structure: the types, how many are counted, and the return type. */
  datatype Structure = Structure(types: seq<string>, count: nat, ret: string)

  function StructureOf(sig: string): Structure {
    var i := IndexOf(sig, '(');
    if i == |sig| then Structure([], 0, "")
    else
      var (types, n) := Contents(sig[i + 1..], []);
      Structure(types, n, match Descriptor(sig) case Parsed(_, ret) => ret case _ => "")
  }

  /** What is parsed is what is in the structure, all of it counted. */
  lemma {:induction false} ParsedContents(p: string, params: seq<string>)
    ensures var o := ParseParams(p, params);
            && (o.Parsed? ==> Contents(p, params) == (o.params, |o.params|))
            && (|params| <= MAX_PARAMS ==> Contents(p, params).1 <= |Contents(p, params).0| <= MAX_PARAMS)
    decreases |p|
  {
    hide TakeOne;
    if p != "" && p[0] != ')' && |params| < MAX_PARAMS {
      match TakeOne(p)
      case Taken(t, rest) => ParsedContents(rest, params + [t]);
      case _ =>
    }
  }

  function Descriptor(sig: string): Outcome {
    var i := IndexOf(sig, '(');
    if i == |sig| then Rejected else ParseParams(sig[i + 1..], [])
  }

  // ---- parsing what was printed

  /** The types that are taken off whole: fewer than 64 characters and at most one bracket. */
  predicate Simple(t: string) {
    FieldType(t) && |t| < WIDTH && Depth(t) <= 1
  }

  lemma IndexIs(s: string, c: char, i: nat)
    requires i < |s| && s[i] == c && forall k :: 0 <= k < i ==> s[k] != c
    ensures IndexOf(s, c) == i
  {
  }

  lemma ObjectTaken(t: string, rest: string)
    requires Object(t)
    ensures IndexOf(t + rest, ';') == |t| - 1 && (t + rest)[..|t|] == t && (t + rest)[|t|..] == rest
  {
    IndexIs(t + rest, ';', |t| - 1);
  }

  lemma ElementTaken(t: string, rest: string)
    requires (Base(t) || Object(t)) && |t| < WIDTH
    ensures TakeOne(t + rest) == Taken(t, rest)
  {
    hide IndexOf;
    if Base(t) {
      assert (t + rest)[..1] == t && (t + rest)[1..] == rest;
    } else {
      ObjectTaken(t, rest);
    }
  }

  lemma ArrayTaken(u: string, rest: string)
    requires (Base(u) || Object(u)) && |u| < WIDTH - 1
    ensures TakeOne("[" + (u + rest)) == Taken("[" + u, rest)
  {
    hide IndexOf;
    var s := "[" + (u + rest);
    assert s[1..] == u + rest;
    if Base(u) {
      assert (u + rest)[..1] == u && (u + rest)[1..] == rest;
    } else {
      ObjectTaken(u, rest);
    }
  }

  lemma SimpleTaken(t: string, rest: string)
    requires Simple(t)
    ensures t != "" && t[0] != ')' && TakeOne(t + rest) == Taken(t, rest)
  {
    hide TakeOne, Base, Object;
    SimpleIs(t);
    if Base(t) || Object(t) {
      ElementTaken(t, rest);
    } else {
      ArrayTaken(t[1..], rest);
      assert t == "[" + t[1..] && t + rest == "[" + (t[1..] + rest);
    }
  }

  lemma SimpleIs(t: string)
    requires Simple(t)
    ensures t != "" && t[0] != ')' && (Base(t) || Object(t) || (t[0] == '[' && (Base(t[1..]) || Object(t[1..]))))
  {
    if !Base(t) && !Object(t) {
      var u := t[1..];
      assert FieldType(u) && Depth(t) == 1 + Depth(u);
      NoBracket(u);
    }
  }

  lemma NoBracket(u: string)
    ensures u != "" && u[0] == '[' ==> Depth(u) >= 1
  {
  }

  lemma OneParam(t: string, rest: string, done: seq<string>)
    requires t != "" && t[0] != ')' && TakeOne(t + rest) == Taken(t, rest) && |done| < MAX_PARAMS
    ensures ParseParams(t + rest, done) == ParseParams(rest, done + [t])
  {
    hide TakeOne;
  }

  /** As many parameters as there is room for are taken one by one. */
  lemma {:induction false} ParamsTaken(params: seq<string>, done: seq<string>, tail: string)
    requires (forall i :: 0 <= i < |params| ==> Simple(params[i])) && |done| + |params| <= MAX_PARAMS
    ensures ParseParams(Concat(params) + tail, done) == ParseParams(tail, done + params)
    decreases |params|
  {
    hide Simple, TakeOne, ParseParams;
    if params == [] {
      assert Concat(params) + tail == tail && done + params == done;
    } else {
      var t, rest := params[0], Concat(params[1..]) + tail;
      assert Concat(params) + tail == t + rest;
      SimpleTaken(t, rest);
      ParamsTaken(params[1..], done + [t], tail);
      assert done + [t] + params[1..] == done + params;
      OneParam(t, rest, done);
    }
  }

  lemma PrintOpens(params: seq<string>, ret: string)
    ensures Descriptor(Print(params, ret)) == ParseParams(Concat(params) + (")" + ret), [])
  {
    var c, s := Concat(params), Print(params, ret);
    hide Concat, ParseParams, IndexOf;
    assert s == "(" + (c + (")" + ret));
    assert s[1..] == c + (")" + ret);
    IndexIs(s, '(', 0);
  }

  /** What the parser can return at all. */
  ghost predicate Returnable(t: string) {
    |t| < WIDTH && (|t| >= 2 && t[0] == '[' && t[1] == '[' ==> |t| == 2)
  }

  lemma TakenIsReturnable(p: string)
    requires p != ""
    ensures TakeOne(p).Taken? ==> Returnable(TakeOne(p).t)
  {
  }

  lemma {:induction false} ParsedIsReturnable(p: string, done: seq<string>)
    requires |done| <= MAX_PARAMS && forall i :: 0 <= i < |done| ==> Returnable(done[i])
    ensures var o := ParseParams(p, done);
            o.Parsed? ==> |o.params| <= MAX_PARAMS && |o.ret| < WIDTH && forall i :: 0 <= i < |o.params| ==> Returnable(o.params[i])
    decreases |p|
  {
    hide Returnable;
    if p != "" && p[0] != ')' && |done| < MAX_PARAMS {
      TakenIsReturnable(p);
      if TakeOne(p).Taken? {
        ParsedIsReturnable(TakeOne(p).rest, done + [TakeOne(p).t]);
      }
    }
  }

  lemma DeepTypesAreLong(t: string)
    requires FieldType(t) && Depth(t) > 1
    ensures |t| >= 3 && t[0] == '[' && t[1] == '['
  {
    assert FieldType(t[1..]) && FieldType(t[1..][1..]);
  }

  /**
    Parsing gives back what was printed exactly when there are at most 16 parameters,
    each with at most one array bracket, and every type has fewer than 64 characters.
   */
  lemma ParsePrintIff(params: seq<string>, ret: string)
    requires forall i :: 0 <= i < |params| ==> FieldType(params[i])
    ensures Descriptor(Print(params, ret)) == Parsed(params, ret)
            <==> |params| <= MAX_PARAMS && (forall i :: 0 <= i < |params| ==> Simple(params[i])) && |ret| < WIDTH
  {
    PrintOpens(params, ret);
    var tail := ")" + ret;
    if |params| <= MAX_PARAMS && (forall i :: 0 <= i < |params| ==> Simple(params[i])) {
      ParamsTaken(params, [], tail);
      assert [] + params == params && tail[1..] == ret;
    }
    if Descriptor(Print(params, ret)) == Parsed(params, ret) {
      ParsedIsReturnable(Concat(params) + tail, []);
      forall i | 0 <= i < |params|
        ensures Simple(params[i])
      {
        assert Returnable(params[i]);
        if Depth(params[i]) > 1 {
          DeepTypesAreLong(params[i]);
        }
      }
    }
  }

  /** More than sixteen such parameters are rejected. */
  lemma TooManyRejected(params: seq<string>, ret: string)
    requires (forall i :: 0 <= i < |params| ==> Simple(params[i])) && |params| > MAX_PARAMS
    ensures Descriptor(Print(params, ret)) == Rejected
  {
    PrintOpens(params, ret);
    var first, more := params[..MAX_PARAMS], params[MAX_PARAMS..];
    ConcatSplits(first, more);
    assert params == first + more;
    var tail := Concat(more) + (")" + ret);
    assert Concat(params) + (")" + ret) == Concat(first) + tail;
    ParamsTaken(first, [], tail);
    assert Simple(more[0]);
    SimpleTaken(more[0], "");
    assert tail[0] == more[0][0];
  }

  lemma {:induction false} ConcatSplits(a: seq<string>, b: seq<string>)
    ensures Concat(a + b) == Concat(a) + Concat(b)
  {
    if a == [] {
      assert a + b == b;
    } else {
      assert (a + b)[1..] == a[1..] + b;
      ConcatSplits(a[1..], b);
    }
  }

  /** A two-dimensional array is split in two. */
  lemma DeepArrayIsSplit()
    ensures Descriptor(Print(["[[I"], "V")) == Parsed(["[[", "I"], "V")
  {
    hide *;
    PrintOpens(["[[I"], "V");
    DeepArrayPieces();
    ParseStep("[[I)V", []);
    ParseStep("I)V", ["[["]);
    assert [] + ["[["] == ["[["] && ["[["] + ["I"] == ["[[", "I"];
    ParseEnd(["[[", "I"]);
  }

  lemma DeepArrayPieces()
    ensures Concat(["[[I"]) + (")" + "V") == "[[I)V" && MAX_PARAMS > 2
    ensures TakeOne("[[I)V") == Taken("[[", "I)V") && TakeOne("I)V") == Taken("I", ")V")
  {
    assert Concat(["[[I"]) == "[[I" by { assert ["[[I"][1..] == []; }
    hide Concat;
    var p := "[[I)V";
    assert p[1..] == "[I)V" && "[I)V"[..1] == "[" && "[I)V"[1..] == "I)V" && "[" + "[" == "[[";
    assert "I)V"[..1] == "I" && "I)V"[1..] == ")V";
  }

  lemma ParseEnd(params: seq<string>)
    ensures ParseParams(")V", params) == Parsed(params, "V")
  {
    assert ")V"[1..] == "V";
  }

  /** Only a string that ends in a bracket is read past its end. */
  lemma {:induction false} OverrunEndsInBracket(p: string, done: seq<string>)
    requires ParseParams(p, done) == Overrun
    ensures p != "" && p[|p| - 1] == '['
    decreases |p|
  {
    hide TakeOne;
    RestIsBehind(p);
    match TakeOne(p)
    case Taken(t, rest) => OverrunEndsInBracket(rest, done + [t]);
    case _ =>
  }

  /** What is left after a type is the end of the string; only a lone bracket is read past. */
  lemma RestIsBehind(p: string)
    requires p != ""
    ensures match TakeOne(p)
            case Taken(_, rest) => |rest| < |p| && rest == p[|p| - |rest|..]
            case Malformed => true
            case PastEnd => p == "["
  {
    hide Cut;
  }

  /** All of the string is taken off, type by type, while there is room for one more parameter. */
  predicate RunsOut(front: string, n: nat)
    decreases |front|
  {
    n < MAX_PARAMS &&
    (front == "" || (front[0] != ')' && TakeOne(front).Taken? && RunsOut(TakeOne(front).rest, n + 1)))
  }

  lemma IndexOfMore(s: string, c: char, d: char)
    requires c != d
    ensures IndexOf(s + [d], c) == if IndexOf(s, c) == |s| then |s| + 1 else IndexOf(s, c)
  {
    var e := s + [d];
    var i := IndexOf(s, c);
    if i < |s| {
      IndexIs(e, c, i);
    } else {
      assert forall k :: 0 <= k < |e| ==> e[k] != c;
    }
  }

  lemma SplitBehind(s: string, n: nat)
    requires n <= |s|
    ensures (s + "[")[..n] == s[..n] && (s + "[")[n..] == s[n..] + "["
  {
  }

  /** A bracket behind a string changes what is taken off it only where the string ends in the middle of a type. */
  lemma BracketBehind(front: string)
    requires front != ""
    ensures match TakeOne(front)
            case Taken(t, rest) => TakeOne(front + "[") == Taken(t, rest + "[")
            case Malformed => TakeOne(front + "[") == Malformed
            case PastEnd => TakeOne(front + "[") == Taken("[[", "")
  {
    hide IndexOf, Cut;
    if front[0] == 'L' {
      IndexOfMore(front, ';', '[');
      var e := IndexOf(front, ';');
      if e < |front| {
        SplitBehind(front, e + 1);
      }
    } else if front[0] == '[' {
      BracketBehindArray(front[1..]);
      assert front == "[" + front[1..] && front + "[" == "[" + (front[1..] + "[");
    } else {
      SplitBehind(front, 1);
    }
  }

  /** The same for what follows the bracket of an array. */
  lemma BracketBehindArray(q: string)
    ensures match TakeOne("[" + q)
            case Taken(t, rest) => TakeOne("[" + (q + "[")) == Taken(t, rest + "[")
            case Malformed => TakeOne("[" + (q + "[")) == Malformed
            case PastEnd => TakeOne("[" + (q + "[")) == Taken("[[", "")
  {
    hide IndexOf, Cut;
    assert ("[" + q)[1..] == q && ("[" + (q + "["))[1..] == q + "[";
    if q == "" {
      assert q + "[" == "[" && "["[..1] == "[" && "["[1..] == "";
    } else if q[0] == 'L' {
      IndexOfMore(q, ';', '[');
      var f := IndexOf(q, ';');
      if f < |q| {
        SplitBehind(q, f + 1);
      }
    } else {
      SplitBehind(q, 1);
    }
  }

  lemma ParseStep(p: string, done: seq<string>)
    requires p != "" && p[0] != ')' && |done| < MAX_PARAMS
    ensures var o := TakeOne(p);
            && (o.Taken? ==> ParseParams(p, done) == ParseParams(o.rest, done + [o.t]))
            && (o.Malformed? ==> ParseParams(p, done) == Rejected)
            && (o.PastEnd? ==> ParseParams(p, done) == Overrun)
  {
    hide TakeOne;
  }

  lemma RunsOutStep(front: string, n: nat)
    requires front != "" && front[0] != ')' && n < MAX_PARAMS
    ensures RunsOut(front, n) <==> TakeOne(front).Taken? && RunsOut(TakeOne(front).rest, n + 1)
  {
    hide TakeOne;
  }

  /**
    A string is read past its end exactly when it ends in a bracket and what is in front
    of that is taken off, type by type, with room for one more parameter.
   */
  lemma {:induction false} OverrunIff(front: string, done: seq<string>)
    ensures ParseParams(front + "[", done) == Overrun <==> RunsOut(front, |done|)
    decreases |front|
  {
    hide *;
    if front == "" || front[0] == ')' || |done| >= MAX_PARAMS {
      OverrunAtOnce(front, done);
    } else {
      OverrunStep(front, done);
      RunsOutStep(front, |done|);
      var o := TakeOne(front);
      if o.Taken? {
        RestIsBehind(front);
        OverrunIff(o.rest, done + [o.t]);
      }
    }
  }

  lemma OverrunStep(front: string, done: seq<string>)
    requires front != "" && front[0] != ')' && |done| < MAX_PARAMS
    ensures var o := TakeOne(front);
            ParseParams(front + "[", done) == if o.Taken? then ParseParams(o.rest + "[", done + [o.t]) else Rejected
  {
    hide *;
    BracketBehind(front);
    var all := front + "[";
    assert all[0] == front[0];
    ParseStep(all, done);
    NothingToRead(done + ["[["]);
  }

  lemma OverrunAtOnce(front: string, done: seq<string>)
    requires front == "" || front[0] == ')' || |done| >= MAX_PARAMS
    ensures ParseParams(front + "[", done) == Overrun <==> RunsOut(front, |done|)
  {
    assert front == "" ==> front + "[" == "[";
    assert TakeOne("[") == PastEnd;
    hide TakeOne;
  }

  lemma NothingToRead(done: seq<string>)
    ensures ParseParams("", done) == Rejected
  {
  }

  /** So a descriptor is read past its end exactly when this is so of what follows its first parenthesis. */
  lemma DescriptorOverrunIff(sig: string)
    ensures Descriptor(sig) == Overrun <==>
            var i := IndexOf(sig, '(');
            i + 1 < |sig| && sig[|sig| - 1] == '[' && RunsOut(sig[i + 1..|sig| - 1], 0)
  {
    hide ParseParams, IndexOf, RunsOut;
    var i := IndexOf(sig, '(');
    if i < |sig| {
      var p := sig[i + 1..];
      if ParseParams(p, []) == Overrun {
        OverrunEndsInBracket(p, []);
      }
      if p != "" && p[|p| - 1] == '[' {
        assert p == sig[i + 1..|sig| - 1] + "[";
        OverrunIff(sig[i + 1..|sig| - 1], []);
      }
    }
  }

  /** For instance an array without an element type. */
  lemma BareBracketOverruns()
    ensures Descriptor("([") == Overrun
  {
    IndexIs("([", '(', 0);
    assert "(["[1..] == "[";
    assert TakeOne("[") == PastEnd;
  }

  // ---- the parser itself

  class MethodSignature {
    var returnType: string
    var paramTypes: array<string>
    var paramCount: nat

    constructor ()
      ensures fresh(paramTypes) && paramTypes.Length == MAX_PARAMS && paramCount == 0 && returnType == ""
    {
      returnType, paramCount := "", 0;
      paramTypes := new string[MAX_PARAMS](_ => "");
    }

    /** The type in front of the string pointed at, and what is behind it; without one, the descriptor is malformed. */
    static method TakeType(sig: string) returns (ok: bool, t: string, p: string)
      requires sig != "" && TakeOne(sig) != PastEnd
      ensures TakeOne(sig) == if ok then Taken(t, p) else Malformed
      ensures !ok ==> t == LeftBehind(sig)
    {
      hide IndexOf, Cut;
      ok, t, p := true, "", sig;
      if p[0] == 'L' {
        var e := IndexOf(p, ';');
        ok := e < |p|;
        if ok {
          t, p := Cut(p[..e + 1], WIDTH - 1), p[e + 1..];
        }
      } else if p[0] == '[' {
        t, p := "[", p[1..];
        if p[0] == 'L' {
          var e := IndexOf(p, ';');
          ok := e < |p|;
          if ok {
            t, p := "[" + Cut(p[..e + 1], WIDTH - 2), p[e + 1..];
          }
        } else {
          t, p := "[" + p[..1], p[1..];
        }
      } else {
        t, p := p[..1], p[1..];
      }
    }

    /** Fills in the parts of the descriptor; 0 if it was parsed and -1 if it was not. */
    method Parse(sig: string) returns (rc: int)
      requires paramTypes.Length == MAX_PARAMS && !Descriptor(sig).Overrun?
      modifies this, paramTypes
      ensures paramTypes == old(paramTypes) && paramCount <= MAX_PARAMS
      ensures match Descriptor(sig)
              case Parsed(params, ret) => rc == 0 && paramTypes[..paramCount] == params && returnType == ret
              case _ => rc == -1
      ensures var s := StructureOf(sig);
              |s.types| <= MAX_PARAMS && paramTypes[..] == Padded(s.types) && paramCount == s.count && returnType == s.ret
    {
      Clear();
      var i := IndexOf(sig, '(');
      if i == |sig| {
        return -1;
      }
      var p := sig[i + 1..];
      ParsedContents(p, []);
      rc := ParseTypes(p);
    }

    method Clear()
      requires paramTypes.Length == MAX_PARAMS
      modifies this, paramTypes
      ensures paramTypes == old(paramTypes) && paramTypes[..] == Padded([]) && paramCount == 0 && returnType == ""
    {
      returnType, paramCount := "", 0;
      var types := paramTypes;
      for k := 0 to MAX_PARAMS
        modifies types
        invariant forall j :: 0 <= j < k ==> types[j] == ""
      {
        types[k] := "";
      }
    }

    /** What follows the parenthesis, into the cleared structure. */
    method ParseTypes(sig: string) returns (rc: int)
      requires paramTypes.Length == MAX_PARAMS && paramCount == 0 && paramTypes[..] == Padded([]) && returnType == ""
      requires ParseParams(sig, []) != Overrun
      modifies this, paramTypes
      ensures paramTypes == old(paramTypes)
      ensures var (types, n) := Contents(sig, []);
              paramCount == n <= |types| <= MAX_PARAMS && paramTypes[..] == Padded(types)
      ensures match ParseParams(sig, [])
              case Parsed(params, ret) => rc == 0 && returnType == ret
              case _ => rc == -1 && returnType == ""
    {
      var p, types, room: nat := sig, paramTypes, WIDTH - 1;
      hide *;
      ghost var done: seq<string> := [];
      while p != "" && p[0] != ')' && paramCount < MAX_PARAMS
        modifies types, `paramCount
        invariant paramCount == |done| <= MAX_PARAMS && types[..] == Padded(done)
        invariant ParseParams(p, done) == ParseParams(sig, []) && Contents(p, done) == Contents(sig, [])
        decreases MAX_PARAMS - paramCount
      {
        NextType(p, done);
        var ok, t, rest := TakeType(p);
        PaddedNext(done, t);
        types[paramCount] := t;
        if !ok {
          return -1;
        }
        paramCount, p, done := paramCount + 1, rest, done + [t];
      }
      NoMoreTypes(p, done);
      if p == "" || p[0] != ')' {
        return -1;
      }
      returnType := Cut(p[1..], room);
      return 0;
    }

    static lemma NextType(p: string, done: seq<string>)
      requires p != "" && p[0] != ')' && |done| < MAX_PARAMS
      ensures var o := TakeOne(p);
              && (o.Taken? ==> ParseParams(p, done) == ParseParams(o.rest, done + [o.t])
                               && Contents(p, done) == Contents(o.rest, done + [o.t]))
              && (o.Malformed? ==> ParseParams(p, done) == Rejected && Contents(p, done) == (done + [LeftBehind(p)], |done|))
              && (o.PastEnd? ==> ParseParams(p, done) == Overrun)
    {
      hide TakeOne, LeftBehind;
    }

    static lemma NoMoreTypes(p: string, done: seq<string>)
      requires p == "" || p[0] == ')' || |done| >= MAX_PARAMS
      ensures Contents(p, done) == (done, |done|)
      ensures ParseParams(p, done) == if p != "" && p[0] == ')' then Parsed(done, Cut(p[1..], WIDTH - 1)) else Rejected
    {
    }

    static lemma PaddedNext(done: seq<string>, t: string)
      requires |done| < MAX_PARAMS
      ensures Padded(done)[|done| := t] == Padded(done + [t])
    {
    }
  }
}
