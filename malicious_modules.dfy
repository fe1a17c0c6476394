/** The obfuscation and module-import checker: string literals that look
    like base64, ROT13 or hex text are decoded and reported when the
    decoded text holds a NUL character; imported module names are
    classified against two name sets. */
module MaliciousModules {
  import opened Outcomes
  import opened Strings
  import opened Ast
  import Base64
  import Utf8

  /** The length of the longest prefix of `s` whose characters all
      satisfy `p`. */
  function Run(s: string, p: char -> bool): (k: nat)
    ensures k <= |s|
    ensures forall i | 0 <= i < k :: p(s[i])
    ensures k < |s| ==> !p(s[k])
  {
    if s == [] || !p(s[0]) then 0
    else
      var k := 1 + Run(s[1..], p);
      assert forall i | 1 <= i < k :: s[i] == s[1..][i - 1];
      k
  }

  /** `[a-zA-Z0-9+/=]`. */
  predicate IsBase64Class(c: char) { Base64.IsBase64Char(c) || c == '=' }

  /** `BASE64_REGEX`, `^[a-zA-Z0-9+/=]+\s*$`: a run of the class followed
      by nothing but white space. */
  predicate Base64Shape(s: string)
  {
    var k := Run(s, IsBase64Class);
    k > 0 && AllSpace(s[k..])
  }

  /** The same pattern read as the regular expression states it: some
      nonempty prefix of class characters, then only white space. No
      white-space character is in the class, so the split is unique. */
  lemma Base64ShapeSplit(s: string)
    ensures Base64Shape(s) <==>
              exists j | 0 < j <= |s| :: (forall i | 0 <= i < j :: IsBase64Class(s[i])) && AllSpace(s[j..])
  {
    var k := Run(s, IsBase64Class);
    if Base64Shape(s) {
      assert (forall i | 0 <= i < k :: IsBase64Class(s[i])) && AllSpace(s[k..]);
    }
    if exists j | 0 < j <= |s| :: (forall i | 0 <= i < j :: IsBase64Class(s[i])) && AllSpace(s[j..]) {
      var j :| 0 < j <= |s| && (forall i | 0 <= i < j :: IsBase64Class(s[i])) && AllSpace(s[j..]);
      if j < |s| {
        assert s[j..][0] == s[j];
      }
      RunStopsAt(s, IsBase64Class, j);
    }
  }

  /** A prefix of `p` characters that `p` cannot extend is the run. */
  lemma RunStopsAt(s: string, p: char -> bool, j: nat)
    requires j <= |s| && (forall i | 0 <= i < j :: p(s[i])) && (j < |s| ==> !p(s[j]))
    ensures Run(s, p) == j
  {
  }

  /** `ROT13_REGEX`, `^[a-zA-Z]+:\/\/[a-zA-Z0-9]+\s*$`. */
  predicate Rot13Shape(s: string)
  {
    var a := Run(s, IsLetter);
    a > 0 && a + 3 <= |s| && s[a..a + 3] == "://"
    && var b := Run(s[a + 3..], IsAlnum);
       b > 0 && AllSpace(s[a + 3 + b..])
  }

  /** One group `0x` followed by two hex digits, at index `j`. */
  predicate HexGroupAt(s: string, j: nat)
  {
    j + 4 <= |s| && s[j] == '0' && s[j + 1] == 'x' && IsHexDigit(s[j + 2]) && IsHexDigit(s[j + 3])
  }

  /** Where the run of hex groups starting at `j` ends. */
  function GroupsEnd(s: string, j: nat): (e: nat)
    requires j <= |s|
    ensures j <= e <= |s| && (e - j) % 4 == 0
    ensures !HexGroupAt(s, e)
    ensures forall i | j <= i < e :: IsBase64Class(s[i])
    decreases |s| - j
  {
    if HexGroupAt(s, j) then
      var e := GroupsEnd(s, j + 4);
      assert forall i | j <= i < j + 4 :: IsBase64Class(s[i]) by {
        assert IsAlnum(s[j]) && IsAlnum(s[j + 1]) && IsAlnum(s[j + 2]) && IsAlnum(s[j + 3]);
      }
      e
    else j
  }

  /** `AES_REGEX`, `^(?:0x[0-9a-fA-F]{2})+\s*$`. Taking fewer groups would
      leave a `0` before the white space, so the groups are the longest
      run. */
  predicate HexShape(s: string)
  {
    var e := GroupsEnd(s, 0);
    e > 0 && AllSpace(s[e..])
  }

  /** `0`, `x` and hex digits are all base64 characters: every string of
      the hex form has the base64 form too, so the hex branch, tried after
      the base64 one, is never taken. */
  lemma HexShapeIsBase64Shape(s: string)
    requires HexShape(s)
    ensures Base64Shape(s)
  {
    Base64ShapeSplit(s);
    var e := GroupsEnd(s, 0);
    assert (forall i | 0 <= i < e :: IsBase64Class(s[i])) && AllSpace(s[e..]);
  }

  /** The ROT13 decoder on one character:
      `chr((ord(c) - 97 + 13) % 26 + 97)` for a letter, with Python's
      floored `%`, which for a positive divisor is Dafny's; other
      characters are kept. An upper-case letter comes out lower-case. */
  function Rot13Char(c: char): (r: char)
    ensures IsLetter(c) ==> IsLower(r) && (r as int - 97) % 26 == (c as int - 84) % 26
    ensures !IsLetter(c) ==> r == c
  {
    if IsLetter(c) then ((c as int - 97 + 13) % 26 + 97) as char else c
  }

  function Rot13(s: string): (r: string)
    ensures |r| == |s| && forall i | 0 <= i < |s| :: r[i] == Rot13Char(s[i])
  {
    seq(|s|, i requires 0 <= i < |s| => Rot13Char(s[i]))
  }

  /** On text without upper-case letters, ROT13 undoes itself. */
  lemma Rot13Involution(s: string)
    requires forall i | 0 <= i < |s| :: !IsUpper(s[i])
    ensures Rot13(Rot13(s)) == s
  {
    forall i | 0 <= i < |s| ensures Rot13(Rot13(s))[i] == s[i] {
      if IsLetter(s[i]) {
        assert Rot13Char(Rot13Char(s[i])) as int == (s[i] as int - 97 + 26) % 26 + 97;
      }
    }
  }

  /** ROT13 neither makes nor removes a NUL. */
  lemma Rot13KeepsNul(s: string)
    ensures '\0' in Rot13(s) <==> '\0' in s
  {
    if '\0' in s {
      var i :| 0 <= i < |s| && s[i] == '\0';
      assert Rot13(s)[i] == '\0';
    }
    if '\0' in Rot13(s) {
      var i :| 0 <= i < |s| && Rot13(s)[i] == '\0';
      assert s[i] == '\0';
    }
  }

  /** A string of the ROT13 form has no NUL: letters, `://`, letters and
      digits, white space. */
  lemma Rot13ShapeHasNoNul(s: string)
    requires Rot13Shape(s)
    ensures '\0' !in s
  {
    var a := Run(s, IsLetter);
    var t := s[a + 3..];
    var b := Run(t, IsAlnum);
    forall i | 0 <= i < |s| ensures s[i] != '\0' {
      if i < a {
      } else if i < a + 3 {
        assert s[a..a + 3][i - a] == s[i];
      } else if i < a + 3 + b {
        assert t[i - a - 3] == s[i];
      } else {
        assert s[a + 3 + b..][i - a - 3 - b] == s[i];
      }
    }
  }

  /** The value of a hex digit. */
  function HexValue(c: char): (v: nat)
    requires IsHexDigit(c)
    ensures v < 16
  {
    if IsDigit(c) then c as int - '0' as int
    else if 'a' <= c <= 'f' then c as int - 'a' as int + 10
    else c as int - 'A' as int + 10
  }

  /** The bytes of the hex groups from `j` up to `e`: removing every `0x`
      leaves just the digit pairs, and `bytes.fromhex` reads a byte from
      each pair. */
  function HexBytes(s: string, j: nat, e: nat): (r: seq<byte>)
    requires j <= e <= |s| && e == GroupsEnd(s, j)
    ensures |r| * 4 == e - j
    ensures forall k | 0 <= k < |r| :: GroupByte(s, j + 4 * k, r[k])
    decreases e - j
  {
    if j == e then []
    else
      var rest := HexBytes(s, j + 4, e);
      var r := [(HexValue(s[j + 2]) * 16 + HexValue(s[j + 3])) as byte] + rest;
      assert forall k | 1 <= k < |r| :: GroupByte(s, j + 4 * k, r[k]) by {
        forall k | 1 <= k < |r| ensures GroupByte(s, j + 4 * k, r[k]) {
          assert r[k] == rest[k - 1] && j + 4 * k == (j + 4) + 4 * (k - 1);
        }
      }
      r
  }

  /** At `i` there is a hex group, and it is worth `b`. */
  predicate GroupByte(s: string, i: nat, b: byte)
  {
    HexGroupAt(s, i) && b as int == HexValue(s[i + 2]) * 16 + HexValue(s[i + 3])
  }

  /** The lower-case hex digit worth `v`. */
  function HexDigit(v: nat): (c: char)
    requires v < 16
    ensures IsHexDigit(c) && HexValue(c) == v
  {
    if v < 10 then ('0' as int + v) as char else ('a' as int + v - 10) as char
  }

  /** Bytes written as `0x` groups, two hex digits each. */
  function HexGroups(bs: seq<byte>): (s: string)
    ensures |s| == 4 * |bs|
  {
    if bs == [] then []
    else ['0', 'x', HexDigit(bs[0] as int / 16), HexDigit(bs[0] as int % 16)] + HexGroups(bs[1..])
  }

  /** The groups of written bytes run to the end, and they read back as the
      bytes. */
  lemma {:induction false} GroupsReadBack(s: string, j: nat, bs: seq<byte>)
    requires j + 4 * |bs| == |s| && s[j..] == HexGroups(bs)
    ensures GroupsEnd(s, j) == |s|
    ensures HexBytes(s, j, |s|) == bs
    decreases |bs|
  {
    if bs != [] {
      var b := bs[0] as int;
      assert s[j..][..4] == ['0', 'x', HexDigit(b / 16), HexDigit(b % 16)];
      assert s[j] == '0' && s[j + 1] == 'x' && s[j + 2] == HexDigit(b / 16) && s[j + 3] == HexDigit(b % 16);
      assert HexGroupAt(s, j);
      assert s[j + 4..] == s[j..][4..];
      GroupsReadBack(s, j + 4, bs[1..]);
      assert bs == [bs[0]] + bs[1..];
    }
  }

  /** Round trip: non-empty bytes written as `0x` groups have the hex form,
      and the hex branch reads back exactly those bytes. */
  lemma HexDecodeEncode(bs: seq<byte>)
    requires bs != []
    ensures HexShape(HexGroups(bs))
    ensures HexBytes(HexGroups(bs), 0, GroupsEnd(HexGroups(bs), 0)) == bs
  {
    var s := HexGroups(bs);
    assert s[0..] == s;
    GroupsReadBack(s, 0, bs);
    assert s[|s|..] == [];
  }

  /** What decoding produced: text, or a failure that the checker catches
      (binascii.Error, UnicodeDecodeError, ValueError). */
  function DecodedText(bs: Option<seq<byte>>): Option<string>
  {
    if bs.None? then None else Utf8.Decode(bs.value)
  }

  predicate HasNul(t: Option<string>) { t.Some? && '\0' in t.value }

  /** The base64 branch: `b64decode` drops the trailing white space (it is
      outside the alphabet), decodes the rest, and the bytes are read as
      UTF-8. */
  function Base64Text(s: string): Option<string>
    requires Base64Shape(s)
  {
    DecodedText(Base64.Decode(s[..Run(s, IsBase64Class)]))
  }

  function HexText(s: string): Option<string>
    requires HexShape(s)
  {
    DecodedText(Some(HexBytes(s, 0, GroupsEnd(s, 0))))
  }

  datatype ObfuscationWarning = PossiblyObfuscated

  /** `audit_obfuscated_strings`: the three decoders in elif order, each
      warning when its decoded text holds a NUL. */
  function ObfuscationCheck(n: Node): (r: seq<ObfuscationWarning>)
    ensures |r| <= 1
    ensures !IsStr(n) ==> r == []
    ensures IsStr(n) && Base64Shape(n.lit.s) ==> (r != [] <==> HasNul(Base64Text(n.lit.s)))
    ensures IsStr(n) && !Base64Shape(n.lit.s) && !HexShape(n.lit.s) ==> r == []
  {
    if !IsStr(n) then []
    else
      var s := n.lit.s;
      if Base64Shape(s) then
        if HasNul(Base64Text(s)) then [PossiblyObfuscated] else []
      else if Rot13Shape(s) then
        Rot13ShapeHasNoNul(s);
        Rot13KeepsNul(s);
        if '\0' in Rot13(s) then [PossiblyObfuscated] else []
      else if HexShape(s) then
        if HasNul(HexText(s)) then [PossiblyObfuscated] else []
      else []
  }

  /** The base64 branch warns exactly when the literal decodes, the bytes
      are well-formed UTF-8, and they hold a zero byte. */
  lemma Base64WarningMeansZeroByte(n: Node)
    requires IsStr(n) && Base64Shape(n.lit.s)
    ensures ObfuscationCheck(n) != [] <==>
              var bs := Base64.Decode(n.lit.s[..Run(n.lit.s, IsBase64Class)]);
              bs.Some? && Utf8.Decode(bs.value).Some? && 0 in bs.value
  {
    var bs := Base64.Decode(n.lit.s[..Run(n.lit.s, IsBase64Class)]);
    if bs.Some? && Utf8.Decode(bs.value).Some? {
      Utf8.NulIffZeroByte(bs.value);
    }
  }

  /** Only the base64 branch ever warns: the ROT13 branch cannot, and the
      hex branch is never reached. */
  lemma OnlyBase64Warns(n: Node)
    ensures ObfuscationCheck(n) != [] ==> IsStr(n) && Base64Shape(n.lit.s)
  {
    if IsStr(n) && !Base64Shape(n.lit.s) && HexShape(n.lit.s) {
      HexShapeIsBase64Shape(n.lit.s);
      assert false;
    }
  }

  /** `"AA=="` decodes to one zero byte, which is the UTF-8 text `"\0"`. */
  lemma PaddedZeroText()
    ensures Base64Shape("AA==") && Base64Text("AA==") == Some(['\0'])
  {
    var s := "AA==";
    RunStopsAt(s, IsBase64Class, 4);
    assert s[..4] == s;
    Base64.DecodePaddedZero();
    Utf8.DecodeAsciiByte([0]);
  }

  /** So `"AA=="` is reported. */
  lemma PaddedZeroReported()
    ensures ObfuscationCheck(Constant(StrLit("AA=="))) == [PossiblyObfuscated]
  {
    PaddedZeroText();
    var r := ObfuscationCheck(Constant(StrLit("AA==")));
    assert HasNul(Base64Text("AA=="));
    assert |r| == 1 && r[0] == PossiblyObfuscated;
  }

  /** `"QUJD"` is the text `"ABC"`, which has no NUL: not reported. */
  lemma PlainTextNotReported()
    ensures ObfuscationCheck(Constant(StrLit("QUJD"))) == []
  {
    var t := "QUJD";
    RunStopsAt(t, IsBase64Class, 4);
    assert t[..4] == t;
    var bs: seq<byte> := [65, 66, 67];
    assert Base64.CharValue('Q') == 16 && Base64.CharValue('U') == 20;
    assert Base64.CharValue('J') == 9 && Base64.CharValue('D') == 3;
    assert Base64.Decode(t) == Base64.DecodeLast(t);
    assert Base64.Decode(t) == Some(bs);
    Utf8.AsciiDecodes(bs);
    Utf8.NulIffZeroByte(bs);
  }

  /** Import names that are reported; the rest would be imported and their
      source searched, which is not part of this model. */
  datatype ImportClass = BadKeyword | BadBuiltin | Inspected

  const BadKeywords: set<string> := {"import", "from", "exec", "eval", "print", "assert", "exit", "quit"}

  const BadBuiltins: set<string> := {"eval", "exec", "open", "input", "print", "exit", "quit", "compile"}

  /** The keyword set is consulted first. */
  function Classify(name: string): (c: ImportClass)
    ensures c == BadKeyword <==> name in BadKeywords
    ensures c == BadBuiltin <==> name in BadBuiltins - BadKeywords
  {
    if name in BadKeywords then BadKeyword
    else if name in BadBuiltins then BadBuiltin
    else Inspected
  }

  /** `name.split(".")[0]`: the name up to its first dot. */
  function FirstComponent(name: string): (r: string)
    ensures '.' !in r
    ensures r == name || (|r| < |name| && name[|r|] == '.')
    ensures r == name[..|r|]
  {
    if name == [] || name[0] == '.' then []
    else
      var rest := FirstComponent(name[1..]);
      assert name[..1 + |rest|] == [name[0]] + rest;
      [name[0]] + rest
  }

  function AliasClasses(names: seq<Alias>): (r: seq<ImportClass>)
    ensures |r| == |names| && forall i | 0 <= i < |names| :: r[i] == Classify(FirstComponent(names[i].name))
  {
    seq(|names|, i requires 0 <= i < |names| => Classify(FirstComponent(names[i].name)))
  }

  /** `audit_malicious_code`: one class per alias of an `import`, by the
      first component of the dotted name; one class for a `from` import,
      by the whole module name. A relative `from . import x` has no module
      name and goes straight to the inspection. */
  function ImportCheck(n: Node): (r: seq<ImportClass>)
    ensures n.Import? ==> |r| == |n.names|
    ensures n.Import? ==> forall i | 0 <= i < |n.names| :: r[i] == Classify(FirstComponent(n.names[i].name))
    ensures n.ImportFrom? ==> |r| == 1 && (n.moduleName.None? ==> r == [Inspected])
    ensures n.ImportFrom? && n.moduleName.Some? ==> r == [Classify(n.moduleName.value)]
    ensures !n.Import? && !n.ImportFrom? ==> r == []
  {
    if n.Import? then AliasClasses(n.names)
    else if n.ImportFrom? then
      [if n.moduleName.Some? then Classify(n.moduleName.value) else Inspected]
    else []
  }

  /** `import os.path` is inspected: `os` is in neither set. */
  lemma SubmoduleImportInspected()
    ensures ImportCheck(Import([Alias("os.path", None)])) == [Inspected]
  {
    assert FirstComponent("os.path") == "os";
  }

  /** `import compile` is a built-in. */
  lemma BuiltinImportReported()
    ensures ImportCheck(Import([Alias("compile", None)])) == [BadBuiltin]
  {
    assert FirstComponent("compile") == "compile";
  }

  /** `import exec.x` is classified by `exec`, a keyword, but `from exec.x
      import y` by the whole name `exec.x`, which is in neither set. */
  lemma FromImportUsesWholeName()
    ensures ImportCheck(Import([Alias("exec.x", None)])) == [BadKeyword]
    ensures ImportCheck(ImportFrom(Some("exec.x"), [])) == [Inspected]
  {
    assert FirstComponent("exec.x") == "exec";
  }

  /** Five names are in both sets; they always get the keyword class. */
  lemma SharedNamesAreKeywords(name: string)
    requires name in BadKeywords * BadBuiltins
    ensures Classify(name) == BadKeyword
    ensures name in {"exec", "eval", "print", "exit", "quit"}
  {
  }
}
