/**
 JNI descriptors: the text of a type, of a method and of a constructor, in the
 grammar of sections 4.3.2 and 4.3.3 of the Java Virtual Machine Specification,
 and a reader that shows they can be decoded in one way only.
 */
module JniDescriptor {
  import opened Options
  import opened Sequences

  datatype Primitive = Boolean | Byte | Char | Short | Int | Long | Float | Double | Void

  /** A run-time class; the name of a reference class has dots between its parts. */
  datatype JType = Prim(p: Primitive) | Ref(name: string) | Array(component: JType)

  function PrimitiveLetter(p: Primitive): char {
    match p
    case Boolean => 'Z'
    case Byte => 'B'
    case Char => 'C'
    case Short => 'S'
    case Int => 'I'
    case Long => 'J'
    case Float => 'F'
    case Double => 'D'
    case Void => 'V'
  }

  /** name.replace('.', '/') */
  function Slashed(name: string): (s: string)
    ensures |s| == |name|
    ensures '.' !in s
    ensures forall k :: 0 <= k < |s| ==> if name[k] == '.' then s[k] == '/' else s[k] == name[k]
  {
    seq(|name|, k requires 0 <= k < |name| => if name[k] == '.' then '/' else name[k])
  }

  function Desc(t: JType): string {
    match t
    case Prim(p) => [PrimitiveLetter(p)]
    case Array(c) => ['['] + Desc(c)
    case Ref(name) => ['L'] + Slashed(name) + [';']
  }

  function Joined(ts: seq<JType>): string {
    if ts == [] then "" else Desc(ts[0]) + Joined(ts[1..])
  }

  function MethodDesc(params: seq<JType>, ret: JType): string {
    ['('] + Joined(params) + [')'] + Desc(ret)
  }

  function ConstructorDesc(params: seq<JType>): string {
    ['('] + Joined(params) + [')', 'V']
  }

  // ---- Reading ----

  /** A value and the text left over. */
  datatype Parsed<T> = Parsed(value: T, rest: string)

  function PrimitiveOf(c: char): Option<Primitive> {
    match c
    case 'Z' => Some(Boolean)
    case 'B' => Some(Byte)
    case 'C' => Some(Char)
    case 'S' => Some(Short)
    case 'I' => Some(Int)
    case 'J' => Some(Long)
    case 'F' => Some(Float)
    case 'D' => Some(Double)
    case 'V' => Some(Void)
    case _ => None
  }

  /** The text up to the first semicolon, with dots for slashes, and the text after it. */
  function ReadName(s: string): (r: Option<Parsed<string>>)
    ensures r.Some? ==> |r.value.rest| < |s|
    ensures r.Some? ==> forall k :: 0 <= k < |r.value.value| ==> r.value.value[k] != ';' && r.value.value[k] != '/'
  {
    if s == "" then None
    else if s[0] == ';' then Some(Parsed("", s[1..]))
    else
      var r := ReadName(s[1..]);
      if r.None? then None
      else Some(Parsed([if s[0] == '/' then '.' else s[0]] + r.value.value, r.value.rest))
  }

  function ReadType(s: string): (r: Option<Parsed<JType>>)
    ensures r.Some? ==> |r.value.rest| < |s|
  {
    if s == "" then None
    else if s[0] == '[' then
      var r := ReadType(s[1..]);
      if r.None? then None else Some(Parsed(Array(r.value.value), r.value.rest))
    else if s[0] == 'L' then
      var r := ReadName(s[1..]);
      if r.None? then None else Some(Parsed(Ref(r.value.value), r.value.rest))
    else
      var p := PrimitiveOf(s[0]);
      if p.None? then None else Some(Parsed(Prim(p.value), s[1..]))
  }

  /** The types up to the closing parenthesis, and the text after it. */
  function ReadParams(s: string): Option<Parsed<seq<JType>>>
    decreases |s|
  {
    if s == "" then None
    else if s[0] == ')' then Some(Parsed([], s[1..]))
    else
      var t := ReadType(s);
      if t.None? then None
      else
        var ts := ReadParams(t.value.rest);
        if ts.None? then None else Some(Parsed([t.value.value] + ts.value.value, ts.value.rest))
  }

  datatype Signature = Signature(params: seq<JType>, ret: JType)

  function ReadMethod(s: string): Option<Signature> {
    if s == "" || s[0] != '(' then None
    else
      var ps := ReadParams(s[1..]);
      if ps.None? then None
      else
        var ret := ReadType(ps.value.rest);
        if ret.None? || ret.value.rest != "" then None
        else Some(Signature(ps.value.value, ret.value.value))
  }

  // ---- Round trips ----

  /** A class name that the descriptor can carry. */
  predicate CarriedName(name: string) {
    forall k :: 0 <= k < |name| ==> name[k] != ';' && name[k] != '/'
  }

  predicate CarriedType(t: JType) {
    match t
    case Prim(_) => true
    case Array(c) => CarriedType(c)
    case Ref(name) => CarriedName(name)
  }

  lemma {:induction false} NameReadsBack(name: string, rest: string)
    requires CarriedName(name)
    ensures ReadName(Slashed(name) + [';'] + rest) == Some(Parsed(name, rest))
  {
    var s := Slashed(name) + [';'] + rest;
    if name == "" {
      assert s[1..] == rest;
    } else {
      assert s[1..] == Slashed(name[1..]) + [';'] + rest;
      NameReadsBack(name[1..], rest);
      assert [name[0]] + name[1..] == name;
    }
  }

  lemma {:induction false} TypeReadsBack(t: JType, rest: string)
    requires CarriedType(t)
    ensures ReadType(Desc(t) + rest) == Some(Parsed(t, rest))
  {
    var s := Desc(t) + rest;
    match t
    case Prim(p) =>
      assert s[0] == PrimitiveLetter(p) && s[1..] == rest;
    case Array(c) =>
      assert s[1..] == Desc(c) + rest;
      TypeReadsBack(c, rest);
    case Ref(name) =>
      assert s[1..] == Slashed(name) + [';'] + rest;
      NameReadsBack(name, rest);
  }

  lemma {:induction false} ReadTypeIsCarried(s: string)
    ensures ReadType(s).Some? ==> CarriedType(ReadType(s).value.value)
  {
    if s != "" && s[0] == '[' {
      ReadTypeIsCarried(s[1..]);
    }
  }

  /** A type's descriptor reads back, whatever follows it, exactly when no class name in it has a semicolon or a slash. */
  lemma {:induction false} TypeRoundTripIff(t: JType, rest: string)
    ensures ReadType(Desc(t) + rest) == Some(Parsed(t, rest)) <==> CarriedType(t)
  {
    ReadTypeIsCarried(Desc(t) + rest);
    if CarriedType(t) {
      TypeReadsBack(t, rest);
    }
  }

  /** No descriptor is a prefix of another one's text: the type is determined before what follows it. */
  lemma {:induction false} DescriptorsArePrefixFree(t: JType, rest: string, t': JType, rest': string)
    requires CarriedType(t) && CarriedType(t') && Desc(t) + rest == Desc(t') + rest'
    ensures t == t' && rest == rest'
  {
    TypeReadsBack(t, rest);
    TypeReadsBack(t', rest');
  }

  lemma {:induction false} DescStartsAType(t: JType)
    ensures Desc(t) != "" && Desc(t)[0] != ')'
  {
  }

  lemma {:induction false} ParamsReadBack(ts: seq<JType>, rest: string)
    requires forall t :: t in ts ==> CarriedType(t)
    ensures ReadParams(Joined(ts) + ([')'] + rest)) == Some(Parsed(ts, rest))
  {
    var s := Joined(ts) + ([')'] + rest);
    if ts == [] {
      assert s == [')'] + rest && s[1..] == rest;
    } else {
      var tail := Joined(ts[1..]) + ([')'] + rest);
      Regroup(Desc(ts[0]), Joined(ts[1..]), [')'] + rest);
      DescStartsAType(ts[0]);
      assert s[0] == Desc(ts[0])[0];
      TypeReadsBack(ts[0], tail);
      ParamsReadBack(ts[1..], rest);
      assert [ts[0]] + ts[1..] == ts;
    }
  }

  predicate CarriedSignature(params: seq<JType>, ret: JType) {
    (forall t :: t in params ==> CarriedType(t)) && CarriedType(ret)
  }

  lemma {:induction false} ReadParamsCarried(s: string)
    ensures ReadParams(s).Some? ==> forall t :: t in ReadParams(s).value.value ==> CarriedType(t)
    decreases |s|
  {
    if s != "" && s[0] != ')' && ReadType(s).Some? {
      ReadTypeIsCarried(s);
      ReadParamsCarried(ReadType(s).value.rest);
    }
  }

  /**
   A method's descriptor gives back its exact parameter list and return type if
   and only if no class name in it has a semicolon or a slash.
   */
  lemma {:induction false} MethodRoundTripIff(params: seq<JType>, ret: JType)
    ensures ReadMethod(MethodDesc(params, ret)) == Some(Signature(params, ret)) <==> CarriedSignature(params, ret)
  {
    var s := MethodDesc(params, ret);
    assert s[1..] == Joined(params) + ([')'] + Desc(ret));
    if CarriedSignature(params, ret) {
      ParamsReadBack(params, Desc(ret));
      assert Desc(ret) + "" == Desc(ret);
      TypeReadsBack(ret, "");
    }
    if ReadMethod(s) == Some(Signature(params, ret)) {
      ReadParamsCarried(s[1..]);
      ReadTypeIsCarried(ReadParams(s[1..]).value.rest);
    }
  }

  /** A constructor's descriptor is that of a method that returns void. */
  lemma {:induction false} ConstructorReadsBack(params: seq<JType>)
    requires forall t :: t in params ==> CarriedType(t)
    ensures ReadMethod(ConstructorDesc(params)) == Some(Signature(params, Prim(Void)))
  {
    assert ConstructorDesc(params) == MethodDesc(params, Prim(Void));
    MethodRoundTripIff(params, Prim(Void));
  }

  /** Two signatures with the same descriptor are the same signature. */
  lemma {:induction false} MethodDescInjective(s: Signature, s': Signature)
    requires CarriedSignature(s.params, s.ret) && CarriedSignature(s'.params, s'.ret)
    requires MethodDesc(s.params, s.ret) == MethodDesc(s'.params, s'.ret)
    ensures s == s'
  {
    MethodRoundTripIff(s.params, s.ret);
    MethodRoundTripIff(s'.params, s'.ret);
  }

  // ---- The grammar, letter by letter ----

  /** The letters of section 4.3.2 of the Java Virtual Machine Specification, and V for void. */
  lemma {:induction false} PrimitiveDescriptors()
    ensures Desc(Prim(Byte)) == ['B'] && Desc(Prim(Char)) == ['C'] && Desc(Prim(Double)) == ['D']
    ensures Desc(Prim(Float)) == ['F'] && Desc(Prim(Int)) == ['I'] && Desc(Prim(Long)) == ['J']
    ensures Desc(Prim(Short)) == ['S'] && Desc(Prim(Boolean)) == ['Z'] && Desc(Prim(Void)) == ['V']
  {
  }

  /** What surrounds a class name, a component type, a parameter list and a return type; no descriptor of a type holds a dot. */
  lemma {:induction false} DescriptorShapes(name: string, c: JType, params: seq<JType>, ret: JType)
    ensures Desc(Ref(name)) == ['L'] + Slashed(name) + [';'] && Desc(Array(c)) == ['['] + Desc(c)
    ensures MethodDesc(params, ret)[0] == '(' && |MethodDesc(params, ret)| == 2 + |Joined(params)| + |Desc(ret)|
    ensures MethodDesc(params, ret)[1..1 + |Joined(params)|] == Joined(params)
    ensures MethodDesc(params, ret)[1 + |Joined(params)|] == ')'
    ensures MethodDesc(params, ret)[2 + |Joined(params)|..] == Desc(ret)
    ensures ConstructorDesc(params) == MethodDesc(params, Prim(Void))
  {
  }

  lemma {:induction false} NoDots(t: JType)
    ensures '.' !in Desc(t)
  {
    match t
    case Array(c) => NoDots(c);
    case Prim(_) =>
    case Ref(_) =>
  }

  lemma {:induction false} JoinedAppend(ts: seq<JType>, t: JType)
    ensures Joined(ts + [t]) == Joined(ts) + Desc(t)
  {
    if ts == [] {
      assert [t][1..] == [] && Desc(t) + "" == Desc(t) && "" + Desc(t) == Desc(t) && [] + [t] == [t];
    } else {
      assert (ts + [t])[1..] == ts[1..] + [t];
      JoinedAppend(ts[1..], t);
      Regroup(Desc(ts[0]), Joined(ts[1..]), Desc(t));
    }
  }
}
