/**
 * The string helpers of CommandLoader: package names between dot and slash
 * notation, class-file names to class names, and the filter that picks the
 * jar entries worth loading.  The class loading itself is not modelled.
 */
module Loader {
  import opened Wrappers
  import opened Errors
  import opened Strings

  /** The extension of a compiled class file. */
  const ClassExtension: string := ".class"

  /** What CLASS_NAME_PATTERN `(.)*Command\.class` wants after its `(.)*`. */
  const CommandClassSuffix: string := "Command.class"

  /** convertPackageName: a package name in dot notation to the slash notation of jar entries. */
  function ConvertPackageName(packageName: string): (r: Result<string, SetupError>)
    ensures r.Failure? <==> |packageName| < 1
    ensures r.Failure? ==> r.error == BlankPackageName
    ensures r.Success? ==> |r.value| == |packageName| && '.' !in r.value
    ensures r.Success? ==> forall i :: 0 <= i < |packageName| ==>
      r.value[i] == (if packageName[i] == '.' then '/' else packageName[i])
  {
    if |packageName| < 1 then Failure(BlankPackageName)
    else
      var slashed := ReplaceChar(packageName, '.', '/');
      assert forall i :: 0 <= i < |slashed| ==> slashed[i] != '.';
      Success(slashed)
  }

  /**
   * convertToPackageName: a jar entry name to a class name in dot notation.
   * When the name ends with ".class", every occurrence of ".class" goes,
   * not only the last.
   */
  function ConvertToPackageName(packageName: string): (r: Result<string, SetupError>)
    ensures r.Failure? <==> |packageName| < 1
    ensures r.Failure? ==> r.error == BlankPackageName
    ensures r.Success? ==> |r.value| <= |packageName| && '/' !in r.value
    ensures r.Success? && !EndsWith(packageName, ClassExtension) ==> |r.value| == |packageName|
    ensures r.Success? && !EndsWith(packageName, ClassExtension) ==> forall i :: 0 <= i < |packageName| ==>
      r.value[i] == (if packageName[i] == '/' then '.' else packageName[i])
  {
    if |packageName| < 1 then Failure(BlankPackageName)
    else
      var stripped := if EndsWith(packageName, ClassExtension) then RemoveAll(packageName, ClassExtension) else packageName;
      var dotted := ReplaceChar(stripped, '/', '.');
      assert forall i :: 0 <= i < |dotted| ==> dotted[i] != '/';
      Success(dotted)
  }

  /**
   * convertToPackageName of a name ending in ".class", cut by its ".class"
   * occurrences into chunks: the chunks in order, with every '/' made a '.'.
   */
  lemma ConvertToPackageNameMeaning(chunks: seq<string>)
    requires |chunks| > 1 && chunks[|chunks| - 1] == []
    requires forall i :: 0 <= i < |chunks| ==> !Occurs(chunks[i], ClassExtension)
    ensures ConvertToPackageName(JoinWith(chunks, ClassExtension)) == Success(ReplaceChar(Concat(chunks), '/', '.'))
  {
    var name := JoinWith(chunks, ClassExtension);
    JoinEndsWithSeparator(chunks, ClassExtension);
    ClassExtensionUnique();
    RemoveAllJoin(chunks, ClassExtension);
    ConvertClassFile(name, Concat(chunks));
  }

  /** The first character of ".class" does not recur in it. */
  lemma ClassExtensionUnique()
    ensures forall i :: 1 <= i < |ClassExtension| ==> ClassExtension[i] != ClassExtension[0]
  {
  }

  /** convertToPackageName of a name ending in ".class" dots what `replace` leaves of it. */
  lemma ConvertClassFile(name: string, bare: string)
    requires EndsWith(name, ClassExtension) && RemoveAll(name, ClassExtension) == bare
    ensures ConvertToPackageName(name) == Success(ReplaceChar(bare, '/', '.'))
  {
  }

  /** Chunks ending in an empty one join into a text that ends with the separator. */
  lemma {:induction false} JoinEndsWithSeparator(chunks: seq<string>, sep: string)
    requires |chunks| > 1 && chunks[|chunks| - 1] == []
    ensures EndsWith(JoinWith(chunks, sep), sep)
  {
    var rest := chunks[1..];
    if |rest| == 1 {
      assert JoinWith(chunks, sep) == chunks[0] + sep + [];
    } else {
      JoinEndsWithSeparator(rest, sep);
      var t := JoinWith(rest, sep);
      var j := chunks[0] + sep + t;
      assert j[|j| - |sep|..] == t[|t| - |sep|..];
    }
  }

  /** sanitizeClassName: the package, a dot, and the class name without its ".class" occurrences. */
  function SanitizeClassName(className: string, packageName: string): (r: string)
    ensures |r| <= |packageName| + 1 + |className|
    ensures StartsWith(r, packageName + ".")
    ensures !EndsWith(className, ClassExtension) ==> r == packageName + "." + className
  {
    var bare := if EndsWith(className, ClassExtension) then RemoveAll(className, ClassExtension) else className;
    assert (packageName + "." + bare)[..|packageName| + 1] == packageName + ".";
    packageName + "." + bare
  }

  // ----- CLASS_NAME_PATTERN -----

  /** The characters Java's `.` does not match: the line terminators. */
  predicate IsLineTerminator(c: char) {
    c == '\n' || c == '\r' || c as int == 0x85 || c as int == 0x2028 || c as int == 0x2029
  }

  /**
   * String.matches(CLASS_NAME_PATTERN), as a matcher for the regular
   * expression: either the rest is the literal suffix, or `(.)*` takes one
   * more character that is not a line terminator.
   */
  predicate MatchesClassNamePattern(s: string)
    decreases |s|
  {
    s == CommandClassSuffix || (|s| > 0 && !IsLineTerminator(s[0]) && MatchesClassNamePattern(s[1..]))
  }

  /** The pattern matches exactly the names that end in "Command.class" and hold no line terminator. */
  lemma {:induction false} ClassNamePatternMeaning(s: string)
    ensures MatchesClassNamePattern(s) <==>
      EndsWith(s, CommandClassSuffix) && forall i :: 0 <= i < |s| ==> !IsLineTerminator(s[i])
    decreases |s|
  {
    var n := |CommandClassSuffix|;
    assert forall i :: 0 <= i < n ==> !IsLineTerminator(CommandClassSuffix[i]);
    if |s| > 0 {
      ClassNamePatternMeaning(s[1..]);
      assert forall i :: 1 <= i < |s| ==> s[i] == s[1..][i - 1];
      if |s| > n {
        assert s[|s| - n..] == s[1..][|s[1..]| - n..];
      }
    }
  }

  /** The filter of loadFromJar: the entry lies under the package and names a command class. */
  predicate JarEntrySelected(entryName: string, slashedNotation: string) {
    StartsWith(entryName, slashedNotation) && MatchesClassNamePattern(entryName)
  }

  /** The entries the filter keeps, stated without the regular expression. */
  lemma JarEntrySelectedMeaning(entryName: string, slashedNotation: string)
    ensures JarEntrySelected(entryName, slashedNotation) <==>
      && StartsWith(entryName, slashedNotation)
      && EndsWith(entryName, CommandClassSuffix)
      && forall i :: 0 <= i < |entryName| ==> !IsLineTerminator(entryName[i])
  {
    ClassNamePatternMeaning(entryName);
  }

  // ----- round trip -----

  lemma {:induction false} ReplaceCharAppend(a: string, b: string, from: char, to: char)
    ensures ReplaceChar(a + b, from, to) == ReplaceChar(a, from, to) + ReplaceChar(b, from, to)
  {
    var r := ReplaceChar(a + b, from, to);
    var t := ReplaceChar(a, from, to) + ReplaceChar(b, from, to);
    assert |r| == |t|;
    forall i | 0 <= i < |r| ensures r[i] == t[i] {
      if i < |a| {
        assert (a + b)[i] == a[i];
      } else {
        assert (a + b)[i] == b[i - |a|];
      }
    }
  }

  /** Turning the dots of a slash-free name into slashes and back gives the name again. */
  lemma {:induction false} ReplaceCharBack(s: string)
    requires '/' !in s
    ensures ReplaceChar(ReplaceChar(s, '.', '/'), '/', '.') == s
  {
    var r := ReplaceChar(ReplaceChar(s, '.', '/'), '/', '.');
    forall i | 0 <= i < |s| ensures r[i] == s[i] {
      assert s[i] != '/';
    }
  }

  /** A string without '.' has no occurrence of ".class". */
  lemma NoDotNoClassExtension(s: string)
    requires '.' !in s
    ensures !Occurs(s, ClassExtension)
  {
    forall i | 0 <= i <= |s| ensures !OccursAt(s, ClassExtension, i) {
      if i + |ClassExtension| <= |s| {
        assert s[i..i + |ClassExtension|][0] == s[i];
      }
    }
  }

  /**
   * The class of jar entry `<slashed package>/<name>.class` is
   * `<package>.<name>`, for a package name without '/' and a class name
   * without '.' or '/'.
   */
  lemma {:induction false} EntryNameRoundTrip(packageName: string, className: string)
    requires |packageName| > 0 && '/' !in packageName
    requires '.' !in className && '/' !in className
    ensures ConvertPackageName(packageName).Success?
    ensures ConvertToPackageName(ConvertPackageName(packageName).value + "/" + className + ClassExtension)
            == Success(packageName + "." + className)
  {
    var slashed := ReplaceChar(packageName, '.', '/');
    assert ConvertPackageName(packageName) == Success(slashed);
    var stem := slashed + "/" + className;
    StemHasNoDot(slashed, className);
    ClassFileStem(stem);
    calc {
      ReplaceChar(stem, '/', '.');
      { ReplaceCharAppend(slashed + "/", className, '/', '.'); }
      ReplaceChar(slashed + "/", '/', '.') + ReplaceChar(className, '/', '.');
      { ReplaceCharAppend(slashed, "/", '/', '.'); ReplaceCharKeeps(className, '/', '.'); }
      ReplaceChar(slashed, '/', '.') + ReplaceChar("/", '/', '.') + className;
      { ReplaceCharBack(packageName); }
      packageName + "." + className;
    }
  }

  /** Neither the slashed package nor a class name without '.' brings a '.' into the entry name. */
  lemma StemHasNoDot(slashed: string, className: string)
    requires '.' !in slashed && '.' !in className
    ensures '.' !in slashed + "/" + className
  {
    var stem := slashed + "/" + className;
    forall i | 0 <= i < |stem| ensures stem[i] != '.' {
      if i < |slashed| {
        assert stem[i] == slashed[i];
      } else if i > |slashed| {
        assert stem[i] == className[i - |slashed| - 1];
      }
    }
  }

  /** convertToPackageName of `<stem>.class`, for a stem without '.', only strips the extension and turns '/' into '.'. */
  lemma ClassFileStem(stem: string)
    requires '.' !in stem
    ensures ConvertToPackageName(stem + ClassExtension) == Success(ReplaceChar(stem, '/', '.'))
  {
    var entry := stem + ClassExtension;
    assert entry[|entry| - |ClassExtension|..] == ClassExtension;
    assert entry == stem + ClassExtension + [];
    RemoveAllAround(stem, ClassExtension, []);
    NoDotNoClassExtension(stem);
    RemoveAllAbsent(stem, ClassExtension);
    assert RemoveAll(entry, ClassExtension) == stem;
  }

  /** A string without `from` is left as it is. */
  lemma ReplaceCharKeeps(s: string, from: char, to: char)
    requires from !in s
    ensures ReplaceChar(s, from, to) == s
  {
    var r := ReplaceChar(s, from, to);
    forall i | 0 <= i < |s| ensures r[i] == s[i] {
      assert s[i] != from;
    }
  }

  /** sanitizeClassName of a class file name without further ".class" drops just the extension. */
  lemma SanitizeClassFile(name: string, packageName: string)
    requires !Occurs(name, ClassExtension)
    ensures SanitizeClassName(name + ClassExtension, packageName) == packageName + "." + name
  {
    var file := name + ClassExtension;
    assert file[|file| - |ClassExtension|..] == ClassExtension;
    assert file == name + ClassExtension + [];
    RemoveAllAround(name, ClassExtension, []);
    RemoveAllAbsent(name, ClassExtension);
  }

  /**
   * sanitizeClassName of a class file name, cut by its ".class" occurrences
   * into chunks: the package, a dot and the chunks in order.
   */
  lemma SanitizeClassNameMeaning(chunks: seq<string>, packageName: string)
    requires |chunks| > 1 && chunks[|chunks| - 1] == []
    requires forall i :: 0 <= i < |chunks| ==> !Occurs(chunks[i], ClassExtension)
    ensures SanitizeClassName(JoinWith(chunks, ClassExtension), packageName) == packageName + "." + Concat(chunks)
  {
    JoinEndsWithSeparator(chunks, ClassExtension);
    ClassExtensionUnique();
    RemoveAllJoin(chunks, ClassExtension);
  }

  /** Every ".class" of a class file name goes, not only the last: "A.classB.class" gives "AB". */
  lemma SanitizeRemovesEveryOccurrence(a: string, b: string, packageName: string)
    requires !Occurs(a, ClassExtension) && !Occurs(b, ClassExtension)
    ensures SanitizeClassName(a + ClassExtension + b + ClassExtension, packageName) == packageName + "." + a + b
  {
    var chunks := [a, b, []];
    assert chunks[1..] == [b, []] && chunks[1..][1..] == [[]];
    assert JoinWith([b, []], ClassExtension) == b + ClassExtension + [];
    assert JoinWith(chunks, ClassExtension) == a + ClassExtension + (b + ClassExtension + []);
    assert a + ClassExtension + (b + ClassExtension + []) == a + ClassExtension + b + ClassExtension;
    assert Concat([b, []]) == b + Concat([[]]) && Concat([[]]) == [];
    assert Concat(chunks) == a + b;
    assert !Occurs([], ClassExtension);
    SanitizeClassNameMeaning(chunks, packageName);
    assert packageName + "." + (a + b) == packageName + "." + a + b;
  }
}
