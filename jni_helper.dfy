/** The IDA "JNI Helper" plugin (jni_helper.py): build a C prototype for
    every `Java_` function from the JSON signature record of the same
    name, give JNI_OnLoad and JNI_OnUnload their fixed prototypes, and
    tally the successes and the names that had no record. The IDA calls
    that parse and apply a prototype are not modelled; the plugin's effect
    is the list of (function, prototype) pairs it would apply. */
module JniHelper {

  datatype Option<T> = None | Some(value: T)

  /** One record of the signature file: `returnType`, `isStatic`, `argumentTypes`. */
  datatype SignatureInfo = SignatureInfo(returnType: string, isStatic: bool, argumentTypes: seq<string>)

  /** One prototype handed to `apply_type` for the function named `fname`. */
  datatype Application = Application(fname: string, decl: string)

  /** What the plugin reports: the success count, the `Java_` names that had
      no record (in enumeration order), and the prototypes it applied. */
  datatype Report = Report(succ: nat, failed: seq<string>, applied: seq<Application>)

  /** The loaded signature file: function name to record, where a JSON
      `null` record is None. */
  type Signatures = map<string, Option<SignatureInfo>>

  /** `infos.get(fname)` is not None: the file has a non-null record for `fname`. */
  predicate HasRecord(infos: Signatures, fname: string)
  {
    fname in infos && infos[fname].Some?
  }

  /** One parameter of a prototype: its C type and its name. */
  datatype Param = Param(ctype: string, pname: string)

  const LoadName: string := "JNI_OnLoad"
  const UnloadName: string := "JNI_OnUnload"

  // ---------------------------------------------------------------------
  // Decimal numerals (Python's str() of a positive int)

  function DigitChar(d: nat): (c: char)
    requires d < 10
    ensures '0' <= c <= '9' && c as int - '0' as int == d
  {
    ('0' as int + d) as char
  }

  function Decimal(n: nat): (s: string)
    ensures |s| >= 1
    ensures forall i :: 0 <= i < |s| ==> '0' <= s[i] <= '9'
    ensures s[0] == '0' ==> n == 0
  {
    if n < 10 then [DigitChar(n)] else Decimal(n / 10) + [DigitChar(n % 10)]
  }

  /** The value of a string of decimal digits. */
  function DecimalValue(s: string): int
  {
    if s == [] then 0 else 10 * DecimalValue(s[..|s| - 1]) + (s[|s| - 1] as int - '0' as int)
  }

  lemma {:induction false} DecimalRoundTrip(n: nat)
    ensures DecimalValue(Decimal(n)) == n
  {
    if n >= 10 {
      var s := Decimal(n);
      assert s[..|s| - 1] == Decimal(n / 10);
      DecimalRoundTrip(n / 10);
    }
  }

  /** Different argument numbers give different numerals. */
  lemma DecimalInjective(a: nat, b: nat)
    ensures Decimal(a) == Decimal(b) ==> a == b
  {
    DecimalRoundTrip(a);
    DecimalRoundTrip(b);
  }

  // ---------------------------------------------------------------------
  // apply_signature

  /** `fname.startswith('Java_')` */
  predicate IsJavaName(fname: string)
  {
    |fname| >= 5 && fname[..5] == "Java_"
  }

  /** The text appended by the `for idx, atype in enumerate(...)` loop for
      the argument types `types`, the first of them numbered `index`. */
  function ArgsDecl(types: seq<string>, index: nat): string
  {
    if types == [] then ""
    else ", " + types[0] + " arg" + Decimal(index) + ArgsDecl(types[1..], index + 1)
  }

  /** The declaration string `apply_signature` builds for `name`. */
  function Declaration(name: string, info: SignatureInfo): string
  {
    info.returnType + " " + name + "(JNIEnv* env, "
      + ReceiverText(info.isStatic)
      + ArgsDecl(info.argumentTypes, 1) + ")"
  }

  /** `apply_signature(ea, info)`: no declaration when `infos.get` gave
      None (no record, or a null one), otherwise the declaration built piece
      by piece, one `, type argN` per argument type. */
  method ApplySignature(name: string, info: Option<SignatureInfo>) returns (decl: Option<string>)
    ensures decl.None? <==> info.None?
    ensures info.Some? ==> decl == Some(Declaration(name, info.value))
  {
    if info.None? {
      return None;
    }
    var sig := info.value;
    var types := sig.argumentTypes;
    var text := sig.returnType + " " + name + "(JNIEnv* env, ";
    ghost var head := text + ReceiverText(sig.isStatic);
    if sig.isStatic {
      text := text + "jclass clazz";
    } else {
      text := text + "jobject thiz";
    }
    var idx := 0;
    while idx < |types|
      invariant 0 <= idx <= |types|
      invariant text + ArgsDecl(types[idx..], idx + 1) == head + ArgsDecl(types, 1)
    {
      ArgsDeclUnfold(types, idx);
      text := text + ", " + types[idx] + " arg" + Decimal(idx + 1);
      idx := idx + 1;
    }
    assert types[idx..] == [];
    assert text == head + ArgsDecl(types, 1);
    text := text + ")";
    return Some(text);
  }

  /** One more argument written by the loop of `apply_signature`. */
  lemma ArgsDeclUnfold(types: seq<string>, idx: nat)
    requires idx < |types|
    ensures ArgsDecl(types[idx..], idx + 1)
         == ", " + types[idx] + " arg" + Decimal(idx + 1) + ArgsDecl(types[idx + 1..], idx + 2)
  {
    assert types[idx..][1..] == types[idx + 1..];
  }

  /** The parameter list a declaration stands for: the JNI environment, the
      receiver (the class for a static method, the object otherwise), then
      one parameter per argument type, named arg1, arg2, ... in order. */
  function Params(info: SignatureInfo): (ps: seq<Param>)
    ensures |ps| == |info.argumentTypes| + 2
    ensures ps[0] == Param("JNIEnv*", "env")
    ensures ps[1] == if info.isStatic then Param("jclass", "clazz") else Param("jobject", "thiz")
    ensures forall i :: 0 <= i < |info.argumentTypes| ==>
              ps[i + 2] == Param(info.argumentTypes[i], "arg" + Decimal(i + 1))
  {
    [Param("JNIEnv*", "env"), if info.isStatic then Param("jclass", "clazz") else Param("jobject", "thiz")]
      + ArgParams(info.argumentTypes, 1)
  }

  function ArgParams(types: seq<string>, index: nat): (ps: seq<Param>)
    ensures |ps| == |types|
  {
    seq(|types|, i requires 0 <= i < |types| => Param(types[i], "arg" + Decimal(index + i)))
  }

  /** `type name` */
  function Render(p: Param): string
  {
    p.ctype + " " + p.pname
  }

  /** The parameters written out and separated by ", ". */
  function JoinParams(ps: seq<Param>): string
  {
    if ps == [] then "" else Render(ps[0]) + JoinRest(ps[1..])
  }

  /** Each parameter preceded by ", ". */
  function JoinRest(ps: seq<Param>): string
  {
    if ps == [] then "" else ", " + Render(ps[0]) + JoinRest(ps[1..])
  }

  lemma {:induction false} ArgsDeclJoin(types: seq<string>, index: nat)
    ensures ArgsDecl(types, index) == JoinRest(ArgParams(types, index))
  {
    if types != [] {
      var ps := ArgParams(types, index);
      assert ps[1..] == ArgParams(types[1..], index + 1);
      ArgsDeclJoin(types[1..], index + 1);
      assert ps[0] == Param(types[0], "arg" + Decimal(index));
    }
  }

  /** The receiver parameter as `apply_signature` writes it. */
  function ReceiverText(isStatic: bool): string
  {
    if isStatic then "jclass clazz" else "jobject thiz"
  }

  lemma EnvRendered()
    ensures Render(Param("JNIEnv*", "env")) == "JNIEnv* env"
  {
  }

  lemma ReceiverRendered(isStatic: bool)
    ensures Render(if isStatic then Param("jclass", "clazz") else Param("jobject", "thiz")) == ReceiverText(isStatic)
  {
  }

  lemma OpenRendered()
    ensures "(" + ("JNIEnv* env" + ", ") == "(JNIEnv* env, "
  {
  }

  /** Joining three strings after a fixed head, regrouped. */
  lemma Regroup(head: string, first: string, sep: string, second: string, rest: string)
    ensures head + (first + (sep + second + rest)) == head + (first + sep) + second + rest
  {
  }

  lemma ParamsJoined(info: SignatureInfo)
    ensures JoinParams(Params(info)) == "JNIEnv* env" + (", " + ReceiverText(info.isStatic) + ArgsDecl(info.argumentTypes, 1))
  {
    var ps := Params(info);
    ArgsDeclJoin(info.argumentTypes, 1);
    assert ps[1..][1..] == ArgParams(info.argumentTypes, 1);
    EnvRendered();
    ReceiverRendered(info.isStatic);
  }

  /** The string built step by step is the return type, the function name
      and the parameter list of `Params` in parentheses. */
  lemma DeclarationIsPrototype(name: string, info: SignatureInfo)
    ensures Declaration(name, info) == info.returnType + " " + name + "(" + JoinParams(Params(info)) + ")"
  {
    var receiver := ReceiverText(info.isStatic);
    var args := ArgsDecl(info.argumentTypes, 1);
    ParamsJoined(info);
    OpenRendered();
    Regroup("(", "JNIEnv* env", ", ", receiver, args);
  }

  /** No two parameters of a declaration share a name. */
  lemma ParamNamesDistinct(info: SignatureInfo)
    ensures var ps := Params(info);
            forall i, j :: 0 <= i < j < |ps| ==> ps[i].pname != ps[j].pname
  {
    var ps := Params(info);
    forall i, j | 0 <= i < j < |ps|
      ensures ps[i].pname != ps[j].pname
    {
      if i >= 2 {
        DecimalInjective(i - 1, j - 1);
        assert ps[i].pname[3..] == Decimal(i - 1);
        assert ps[j].pname[3..] == Decimal(j - 1);
      } else {
        assert ps[i].pname[0] != ps[j].pname[0];
      }
    }
  }

  // ---------------------------------------------------------------------
  // apply_load_unload

  /** The prototype `apply_load_unload` formats for JNI_OnLoad (`load`)
      or JNI_OnUnload. */
  function LoadUnloadDecl(load: bool): string
  {
    (if load then "jint" else "void") + " " + (if load then LoadName else UnloadName) + "(JavaVM *vm, void *reserved)"
  }

  /** The JNI_OnLoad prototype, written out. */
  lemma LoadPrototype()
    ensures LoadUnloadDecl(true) == "jint JNI_OnLoad(JavaVM *vm, void *reserved)"
  {
    assert "jint" + " " == "jint ";
    assert "jint " + LoadName == "jint JNI_OnLoad";
    assert "jint JNI_OnLoad" + "(JavaVM *vm, void *reserved)" == "jint JNI_OnLoad(JavaVM *vm, void *reserved)";
  }

  /** The JNI_OnUnload prototype, written out. */
  lemma UnloadPrototype()
    ensures LoadUnloadDecl(false) == "void JNI_OnUnload(JavaVM *vm, void *reserved)"
  {
    assert "void" + " " == "void ";
    assert "void " + UnloadName == "void JNI_OnUnload";
    assert "void JNI_OnUnload" + "(JavaVM *vm, void *reserved)" == "void JNI_OnUnload(JavaVM *vm, void *reserved)";
  }

  // ---------------------------------------------------------------------
  // The loop of JNIHelperPlugin.run

  /** The number of `Java_` functions among `fnames` that have a record. */
  function Found(fnames: seq<string>, infos: Signatures): nat
  {
    if fnames == [] then 0
    else
      var f := fnames[|fnames| - 1];
      Found(fnames[..|fnames| - 1], infos) + (if IsJavaName(f) && HasRecord(infos, f) then 1 else 0)
  }

  /** The `Java_` functions among `fnames` whose record is missing or null, in order. */
  function Missing(fnames: seq<string>, infos: Signatures): seq<string>
  {
    if fnames == [] then []
    else
      var f := fnames[|fnames| - 1];
      Missing(fnames[..|fnames| - 1], infos) + (if IsJavaName(f) && !HasRecord(infos, f) then [f] else [])
  }

  /** The number of `Java_` functions among `fnames`. */
  function CountJava(fnames: seq<string>): nat
  {
    if fnames == [] then 0
    else CountJava(fnames[..|fnames| - 1]) + (if IsJavaName(fnames[|fnames| - 1]) then 1 else 0)
  }

  /** The number of functions among `fnames` named JNI_OnLoad or JNI_OnUnload. */
  function CountLoadUnload(fnames: seq<string>): nat
  {
    if fnames == [] then 0
    else
      var f := fnames[|fnames| - 1];
      CountLoadUnload(fnames[..|fnames| - 1]) + (if f == LoadName || f == UnloadName then 1 else 0)
  }

  /** A name is at most one of `Java_`-prefixed, JNI_OnLoad and JNI_OnUnload. */
  lemma NamesExclusive()
    ensures !IsJavaName(LoadName) && !IsJavaName(UnloadName) && LoadName != UnloadName
  {
    assert LoadName[..5][1] == 'N';
    assert UnloadName[..5][1] == 'N';
    assert |LoadName| != |UnloadName|;
  }

  /** The prototypes applied while visiting one function. */
  function AppliedFor(fname: string, infos: Signatures): seq<Application>
  {
    (if IsJavaName(fname) && HasRecord(infos, fname) then [Application(fname, Declaration(fname, infos[fname].value))] else [])
      + (if fname == LoadName then [Application(fname, LoadUnloadDecl(true))] else [])
      + (if fname == UnloadName then [Application(fname, LoadUnloadDecl(false))] else [])
  }

  lemma AppliedForShape(fname: string, infos: Signatures)
    ensures IsJavaName(fname) ==>
              AppliedFor(fname, infos) == if HasRecord(infos, fname) then [Application(fname, Declaration(fname, infos[fname].value))] else []
    ensures fname == LoadName ==> AppliedFor(fname, infos) == [Application(fname, LoadUnloadDecl(true))]
    ensures fname == UnloadName ==> AppliedFor(fname, infos) == [Application(fname, LoadUnloadDecl(false))]
    ensures !IsJavaName(fname) && fname != LoadName && fname != UnloadName ==> AppliedFor(fname, infos) == []
  {
    NamesExclusive();
  }

  /** The prototypes applied while visiting `fnames`, in order. */
  function Applications(fnames: seq<string>, infos: Signatures): seq<Application>
  {
    if fnames == [] then []
    else Applications(fnames[..|fnames| - 1], infos) + AppliedFor(fnames[|fnames| - 1], infos)
  }

  /** Every `Java_` function lands in exactly one of the two tallies. */
  lemma {:induction false} FoundPlusMissing(fnames: seq<string>, infos: Signatures)
    ensures Found(fnames, infos) + |Missing(fnames, infos)| == CountJava(fnames)
  {
    if fnames != [] {
      FoundPlusMissing(fnames[..|fnames| - 1], infos);
    }
  }

  /** A name is reported as failed exactly when it is a `Java_` function
      whose record is missing or null. */
  lemma {:induction false} MissingExactly(fnames: seq<string>, infos: Signatures)
    ensures forall f :: f in Missing(fnames, infos) <==> f in fnames && IsJavaName(f) && !HasRecord(infos, f)
  {
    if fnames != [] {
      var init := fnames[..|fnames| - 1];
      MissingExactly(init, infos);
      assert fnames == init + [fnames[|fnames| - 1]];
    }
  }

  /** Each success applies exactly one prototype, and each applied
      prototype is the one the function's name calls for. */
  lemma {:induction false} ApplicationsMatchSuccesses(fnames: seq<string>, infos: Signatures)
    ensures |Applications(fnames, infos)| == Found(fnames, infos) + CountLoadUnload(fnames)
    ensures forall a :: a in Applications(fnames, infos) ==>
              || (IsJavaName(a.fname) && HasRecord(infos, a.fname) && a.decl == Declaration(a.fname, infos[a.fname].value))
              || (a.fname == LoadName && a.decl == LoadUnloadDecl(true))
              || (a.fname == UnloadName && a.decl == LoadUnloadDecl(false))
  {
    if fnames != [] {
      var f := fnames[|fnames| - 1];
      ApplicationsMatchSuccesses(fnames[..|fnames| - 1], infos);
      NamesExclusive();
    }
  }

  /** One pass of the loop in `JNIHelperPlugin.run`: the tallies after
      visiting `fname` extend those before it by what `fname` contributes. */
  method Visit(fname: string, sigs: Signatures, succ: nat, failed: seq<string>, applied: seq<Application>)
    returns (succ': nat, failed': seq<string>, applied': seq<Application>)
    ensures succ' == succ + (if IsJavaName(fname) && HasRecord(sigs, fname) then 1 else 0)
                          + (if fname == LoadName || fname == UnloadName then 1 else 0)
    ensures failed' == failed + (if IsJavaName(fname) && !HasRecord(sigs, fname) then [fname] else [])
    ensures applied' == applied + AppliedFor(fname, sigs)
  {
    succ', failed', applied' := succ, failed, applied;
    // The source tests the three names with independent ifs; at most one
    // of them can hold (NamesExclusive), so an else-if chain is the same.
    NamesExclusive();
    AppliedForShape(fname, sigs);
    if IsJavaName(fname) {
      var info := if fname in sigs then sigs[fname] else None;
      if info.None? {
        failed' := failed' + [fname];
      } else {
        succ' := succ' + 1;
      }
      var decl := ApplySignature(fname, info);
      if decl.Some? {
        applied' := applied' + [Application(fname, decl.value)];
      }
    } else if fname == LoadName {
      applied' := applied' + [Application(fname, LoadUnloadDecl(true))];
      succ' := succ' + 1;
    } else if fname == UnloadName {
      applied' := applied' + [Application(fname, LoadUnloadDecl(false))];
      succ' := succ' + 1;
    }
  }

  /** `JNIHelperPlugin.run` after the header check: `functions` are the
      names of IDA's functions in enumeration order, `infos` the loaded
      signature file (None when no file was chosen). */
  method Run(functions: seq<string>, infos: Option<Signatures>) returns (report: Option<Report>)
    ensures report.Some? <==> infos.Some? && infos.value != map[]
    ensures report.Some? ==>
              && report.value.succ == Found(functions, infos.value) + CountLoadUnload(functions)
              && report.value.failed == Missing(functions, infos.value)
              && report.value.applied == Applications(functions, infos.value)
  {
    if infos.None? || infos.value == map[] {
      return None;
    }
    var sigs := infos.value;
    var failed: seq<string> := [];
    var succ: nat := 0;
    var applied: seq<Application> := [];
    var k := 0;
    while k < |functions|
      invariant 0 <= k <= |functions|
      invariant succ == Found(functions[..k], sigs) + CountLoadUnload(functions[..k])
      invariant failed == Missing(functions[..k], sigs)
      invariant applied == Applications(functions[..k], sigs)
    {
      assert functions[..k + 1][..k] == functions[..k];
      succ, failed, applied := Visit(functions[k], sigs, succ, failed, applied);
      k := k + 1;
    }
    assert functions[..k] == functions;
    report := Some(Report(succ, failed, applied));
  }

  /** The two counters of the final message account for every `Java_`,
      JNI_OnLoad and JNI_OnUnload function and for nothing else. */
  lemma TallyTotal(functions: seq<string>, infos: Signatures)
    ensures Found(functions, infos) + CountLoadUnload(functions) + |Missing(functions, infos)|
         == CountJava(functions) + CountLoadUnload(functions)
  {
    FoundPlusMissing(functions, infos);
  }
}
