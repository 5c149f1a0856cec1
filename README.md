# JNI signature export and import, modelled in Dafny

This project models the two halves of a small JNI reverse-engineering
workflow.

- **LazyJni** (`lazy_jni.dfy`) models `LazyJniAction.start` in the jadx GUI
  plugin. It collects the native methods of every decompiled class and
  groups them by full name into `methodInfos`. It then gives each method a
  native symbol name through `MethodInfo.getNativeName(groupKey, isOverload)`.
  A group is overloaded when it has more than one member. It builds the
  `result` map from native name to `MethodInfo`, asserting before each `put`
  that the name is not yet a key. The two grouping loops and the result loop
  are imperative methods (`GroupNatives`, `BuildResult`, `InsertGroup`). Each
  is proved against a reference definition:
  - `Grouping` says what `methodInfos` should hold.
  - `Entries` lists the `put`s in order.
  - `ToMap` gives the map those `put`s build.
  - `DistinctNames` is the condition the assertion checks.
- **JniHelper** (`jni_helper.dfy`) models the IDA plugin `jni_helper.py`.
  - `apply_signature` builds a C prototype for a `Java_` function from its
    JSON record (`returnType`, `isStatic`, `argumentTypes`).
  - `apply_load_unload` gives JNI_OnLoad and JNI_OnUnload their fixed
    prototypes.
  - The loop of `JNIHelperPlugin.run` counts successes and collects the
    `Java_` names that have no record.

  The IDA calls that parse and apply a prototype are foreign. The model
  instead records each prototype the plugin would apply as an
  `Application(function, declaration)`.

Inputs the model takes as parameters:

- The decompiled classes, as a sequence of sequences of methods in
  enumeration order.
- The HashMap's entry order, as `order`. It is only required to list every
  key once.
- `getNativeName`, as an arbitrary function `namer`. Nothing is assumed
  about it.
- IDA's function names, in enumeration order.
- The loaded signature file, as an optional map. `None` means no file was
  chosen. A record may itself be `None`, standing for a JSON `null`.

## Model

| member | source | states |
|---|---|---|
| LazyJni.Start | jadx/jadx-gui/src/main/java/jadx/gui/plugins/lazyjni/LazyJniAction.java:25-59 | The export finishes exactly when all computed native names are distinct. The result then has one entry per native method and contains every native method and nothing else. Each key is the name computed from its record, the record's full name and whether that name is overloaded. A failed assertion reports the name together with two distinct insertions under it, an earlier and a later one. Both records are native methods whose computed name is that name. Without native methods the result is the empty map. |
| LazyJni.GroupNatives | jadx/jadx-gui/src/main/java/jadx/gui/plugins/lazyjni/LazyJniAction.java:30-44 | After the nested class and method loops, `methodInfos` equals `Grouping`: one group per full name of a native method, holding exactly the native methods of that name in visiting order. |
| LazyJni.GroupingSnoc | jadx/jadx-gui/src/main/java/jadx/gui/plugins/lazyjni/LazyJniAction.java:32-42 | Visiting one more method: a non-native method changes nothing. The first native method of a name creates a one-element group. A later one is appended to the end of its group. No other group changes. |
| LazyJni.NativeInfosMembers | jadx/jadx-gui/src/main/java/jadx/gui/plugins/lazyjni/LazyJniAction.java:32 | A record is among the collected ones exactly when its method was visited and is native. |
| LazyJni.MembersKeyed | jadx/jadx-gui/src/main/java/jadx/gui/plugins/lazyjni/LazyJniAction.java:33-41 | Every record in a group belongs to a visited native method whose full name is the group's key. |
| LazyJni.MembersNonEmpty | jadx/jadx-gui/src/main/java/jadx/gui/plugins/lazyjni/LazyJniAction.java:33-38 | A group is non-empty exactly when some native method has its name, so no empty group is ever created. |
| LazyJni.MembersCount | jadx/jadx-gui/src/main/java/jadx/gui/plugins/lazyjni/LazyJniAction.java:30-44 | A group holds each record as often as the native methods do when the record's full name is the key, and never otherwise. So each native method lands in exactly one group. |
| LazyJni.MembersOverloaded | jadx/jadx-gui/src/main/java/jadx/gui/plugins/lazyjni/LazyJniAction.java:53 | `size() > 1` holds exactly when two different native methods share the group's full name. |
| LazyJni.EntriesCount | jadx/jadx-gui/src/main/java/jadx/gui/plugins/lazyjni/LazyJniAction.java:49-58 | Iterating the listed groups inserts each record as often as the native methods hold it when its name is listed, and never otherwise. |
| LazyJni.ExportIsPermutation | jadx/jadx-gui/src/main/java/jadx/gui/plugins/lazyjni/LazyJniAction.java:30-58 | The records inserted into `result` are the native methods as a multiset: none lost, none repeated, and no non-native method among them. There is one insertion per native method. |
| LazyJni.EntriesNamed | jadx/jadx-gui/src/main/java/jadx/gui/plugins/lazyjni/LazyJniAction.java:53-57 | Every insertion is of a native method. Its name is `getNativeName` of that record, its group key and the group's overload flag. |
| LazyJni.ToMapKeys | jadx/jadx-gui/src/main/java/jadx/gui/plugins/lazyjni/LazyJniAction.java:57 | The keys of the map built by the `put`s are exactly the names inserted. |
| LazyJni.ToMapDistinct | jadx/jadx-gui/src/main/java/jadx/gui/plugins/lazyjni/LazyJniAction.java:56-57 | With distinct names, the map has one entry per `put`, and each name maps to the record put under it. |
| LazyJni.InsertStep | jadx/jadx-gui/src/main/java/jadx/gui/plugins/lazyjni/LazyJniAction.java:56-57 | `containsKey` holds before a `put` exactly when an earlier `put` used that name, and then the map holds that earlier record. The `put` adds that one binding. |
| LazyJni.PlaceFresh | jadx/jadx-gui/src/main/java/jadx/gui/plugins/lazyjni/LazyJniAction.java:56-57 | A member placed under a fresh name keeps all names distinct and adds exactly its binding. |
| LazyJni.PlaceClash | jadx/jadx-gui/src/main/java/jadx/gui/plugins/lazyjni/LazyJniAction.java:56 | A member whose name is already a key clashes with the record that holds the key, so the whole sequence of insertions is not distinct. |
| LazyJni.ClashPersists | jadx/jadx-gui/src/main/java/jadx/gui/plugins/lazyjni/LazyJniAction.java:49-58 | A clash among the first groups is still a clash once every group is inserted. |
| LazyJni.InsertGroup | jadx/jadx-gui/src/main/java/jadx/gui/plugins/lazyjni/LazyJniAction.java:53-57 | The for-loop over one group, continuing after the earlier insertions. It finishes exactly when the names stay distinct, and then yields `ToMap` of all insertions so far. Otherwise it reports the name together with the record that already holds it and the incoming record. |
| LazyJni.BuildResult | jadx/jadx-gui/src/main/java/jadx/gui/plugins/lazyjni/LazyJniAction.java:47-58 | The while-loop over the entry iterator finishes exactly when all insertions use distinct names, and then yields the map they build. Otherwise it reports a clashing pair of insertions. |
| LazyJni.ExportedResult | jadx/jadx-gui/src/main/java/jadx/gui/plugins/lazyjni/LazyJniAction.java:47-58 | When no assertion fails, `result` has exactly one entry per native method and contains every native method among its values. Each key is the computed name of the record it maps to. |
| LazyJni.CollidingEntries | jadx/jadx-gui/src/main/java/jadx/gui/plugins/lazyjni/LazyJniAction.java:55-56 | The two records of a clash are both native methods, and the name computed for each is the clashing name. |
| LazyJni.NoNatives | jadx/jadx-gui/src/main/java/jadx/gui/plugins/lazyjni/LazyJniAction.java:27-47 | Without native methods, `methodInfos` is empty and nothing is inserted into `result`. |
| JniHelper.ApplySignature | jni_helper_ida/jni_helper.py:47-64 | Without a record (missing or `null`), no declaration is built or applied. With one, the loop builds exactly `Declaration`. |
| JniHelper.Params | jni_helper_ida/jni_helper.py:53-59 | The parameter list is `JNIEnv* env` first. Next comes `jclass clazz` for a static method or `jobject thiz` otherwise. Then one parameter per argument type, in order, named `arg1` up to `argN`. |
| JniHelper.DeclarationIsPrototype | jni_helper_ida/jni_helper.py:53-60 | The string built step by step is the return type, a space, the function name, and the list of `Params` joined by ", " in parentheses. |
| JniHelper.ParamNamesDistinct | jni_helper_ida/jni_helper.py:53-59 | No two parameters of a declaration share a name. |
| JniHelper.DecimalRoundTrip | jni_helper_ida/jni_helper.py:59 | The numeral written for an argument number reads back as that number. |
| JniHelper.DecimalInjective | jni_helper_ida/jni_helper.py:59 | Different argument numbers are written as different numerals. |
| JniHelper.LoadPrototype | jni_helper_ida/jni_helper.py:67-75 | The JNI_OnLoad prototype is `jint JNI_OnLoad(JavaVM *vm, void *reserved)`. |
| JniHelper.UnloadPrototype | jni_helper_ida/jni_helper.py:67-75 | The JNI_OnUnload prototype is `void JNI_OnUnload(JavaVM *vm, void *reserved)`. |
| JniHelper.NamesExclusive | jni_helper_ida/jni_helper.py:108-120 | The three tests of the loop exclude one another: neither JNI_OnLoad nor JNI_OnUnload starts with `Java_`, and the two names differ. |
| JniHelper.AppliedForShape | jni_helper_ida/jni_helper.py:108-120 | A `Java_` function gets its declaration when it has a record and nothing otherwise. JNI_OnLoad and JNI_OnUnload get their fixed prototype. Any other function gets nothing. |
| JniHelper.Visit | jni_helper_ida/jni_helper.py:107-120 | One pass of the loop. `succ` grows by one for a `Java_` name with a record and for JNI_OnLoad or JNI_OnUnload. `failed` grows by the `Java_` name whose record is missing or `null`. The applied prototypes grow by what that function calls for. |
| JniHelper.Run | jni_helper_ida/jni_helper.py:102-120 | A report is produced exactly when a non-empty signature map was loaded. `succ` is then the `Java_` names found plus the JNI_OnLoad and JNI_OnUnload functions. `failed` is the `Java_` names whose record is missing or `null`, in enumeration order. The applied prototypes are those the functions call for, in order. |
| JniHelper.FoundPlusMissing | jni_helper_ida/jni_helper.py:108-113 | Every `Java_` function is counted either as found or as failed, never both. |
| JniHelper.MissingExactly | jni_helper_ida/jni_helper.py:108-111 | A name is in `failed` exactly when it is an enumerated `Java_` function whose record is missing or `null`. |
| JniHelper.ApplicationsMatchSuccesses | jni_helper_ida/jni_helper.py:108-120 | There is one applied prototype per success. Each is the declaration of a `Java_` function with a record, or the fixed JNI_OnLoad or JNI_OnUnload prototype. |
| JniHelper.TallyTotal | jni_helper_ida/jni_helper.py:104-120 | `succ + len(failed)` equals the number of `Java_` functions plus the number of JNI_OnLoad and JNI_OnUnload functions. |

## Left out

- LazyJni.Start: the Java `assert` at LazyJniAction.java:56 is modelled as an explicit `Collision` outcome. With assertions disabled, as they are by default, the JVM would overwrite the earlier entry instead; the model does not describe that overwrite.
- LazyJni.Start: `MethodInfo.getNativeName` is not part of this model. It is a parameter about which nothing is assumed, so no JNI name mangling is specified and uniqueness of names is not claimed. Uniqueness appears only as the condition for success.
- LazyJni.BuildResult: the HashMap iteration order is unspecified in Java. It is a parameter that must list each key once, and nothing is proved about the order of groups or of the result's entries.
- LazyJni.GroupNatives: the ArrayList stored in `methodInfos` and extended in place through `add` is modelled as a map value that is replaced by the extended list. Aliasing of that list is not modelled.
- `JavaMethod` is reduced to its full name, its native flag and an opaque signature string. `MethodInfo` is reduced to the method it wraps. The decompiler API (`getClasses`, `getMethods`, `getAccessFlags`) is replaced by the input sequences.
- The Gson pretty-printing, the `FileWriter` output to `<openPath>_jni_sign.json`, the swallowed exception and the `JOptionPane` dialog (LazyJniAction.java:28, 61-69) are I/O and are left out.
- jadx/jadx-gui/src/main/java/jadx/gui/ui/treenodes/SummaryNode.java is not part of this model. It is Swing and HTML rendering with floating-point percentages.
- JniHelper: the IDA API is foreign and is left out: `get_func_name`, `parse_decl`, `apply_type`, `idc_parse_types`, `set_ida_state`, `idautils.Functions`, `is_jni_header_loaded` and `load_jni_header`. Function enumeration is an input sequence of names. Applying a prototype is recorded as an `Application`. Whether IDA accepts the declaration is not modelled.
- JniHelper: `ask_file`, `json.load`, `log`, `print` and the final `idaapi.info` message are left out. The signature file is an optional map from names to records that are either `null` or hold a string return type, a boolean and a list of strings. Records of other shapes are assumed away and not modelled: a non-boolean `isStatic` read by Python truthiness, a non-string `returnType` formatted by `str.format`, a string `argumentTypes` walked one character at a time, and a record missing a key or not a dict, which raises.
- JniHelper.Run: Python truthiness of `infos` is read as "a file was chosen and its map is non-empty". The three independent `if`s of the loop are written as an else-if chain, which `NamesExclusive` shows to be equivalent.
- JniHelper.ApplySignature: Python's `str()` of the argument number is modelled by `Decimal` for non-negative integers only, which are the only ones `enumerate(...) + 1` produces.
