# Python security-audit checkers, modelled in Dafny

The modelled system is a set of small static checkers for Python programs. Each
checker receives one node of a parsed Python program. It looks at that node,
and for a function definition usually at every node beneath it. It prints a
warning for each insecure or suspicious construct it recognises:

- weak hash, MAC and random functions, short keys and missing operations;
- plain-text protocols and TLS keyword arguments;
- unsalted hashing and unchecked authorization keys;
- hard-coded secrets and insecure configuration calls;
- `try` blocks without logging, deprecated logging calls, `print` and `assert`;
- return values that do not fit their annotation;
- obfuscated string literals and imports of dangerous names;
- strings that name code execution;
- insecure JSON responses;
- invalid `for`, `while` and `if` headers.

The model has one module per checker. Three modules are shared:

- `Outcomes`: what a checker leaves behind.
- `Strings`: the string predicates the checkers' regular expressions reduce to.
- `Ast`: the parsed program, `ast.walk` and the callee name.

Two modules hold the decoders the obfuscation checker relies on: `Base64`
(RFC 4648) and `Utf8` (RFC 3629).

A checker's result is a `Report`. It holds the warnings printed, in order, and
the Python exception that stopped the checker, if one did. The warnings printed
before the exception stay in the report. A warning is a datatype value that
carries what the printed message mentions. Source locations and message texts
are not modelled.

`Walk` models `ast.walk`: breadth-first from a queue. Keyword arguments and
exception handlers are not nodes of their own here (see "Left out").
`Ast.WalkIsPermutation` proves that the walk yields the nodes of the subtree,
each as often as it occurs there, as a permutation (multiset equality) of an
independent pre-order enumeration (`Ast.Subtree`).

Behaviour of the code that the model keeps:

- `ast.walk` is breadth-first.
- Inputs the code does not expect raise exceptions instead of being skipped:
  - a callee that is neither a name nor an attribute;
  - a keyword argument without a name;
  - a dictionary key that is not a string;
  - an assignment without a target;
  - a function without parameters in the equality-return check.
- In `InvalidLogic.py`, the second copy of each definition is the one in
  force.
  - Every `and`/`or` condition is reported invalid (`InvalidLogic.BoolOpAlwaysInvalid`).
  - A `range` call with positional arguments never passes the bounds test
    (`InvalidLogic.PositionalRangeNeverValid`).
- The callee name of a checker is `attr` or `id`, a plain identifier. So:
  - every dotted name the crypto and API checkers compare with can never
    match (`Cryptography.CallRulesSilent`, `ApiAudit.ApiAuditSilent`);
  - the crypto checker warns only about key sizes and operations.
- The return-annotation check reads an `annotation` attribute that no
  expression node of Python's parser has. With those nodes, the check stops
  at the first `return` with a value and prints nothing
  (`OutputValidation.StockNodesStopTheCheck`). The model takes the
  attribute's read as a parameter.
- The hex branch of the obfuscation check is never reached, because every hex
  literal also has the base64 form (`MaliciousModules.OnlyBase64Warns`). The
  ROT13 branch never warns.
- The docstring rule of the logging checker upper-cases one character at a
  time, so it never finds `TODO` or `FIXME` (`LoggingErrors.DocstringRule`).

## Model

| member | source | states |
|---|---|---|
| Outcomes.Then | Python/Python_Cryptography.py:33-57 | Two printing steps in sequence: the second runs only if the first finished; the result finishes iff both do, and then prints the first's warnings followed by the second's |
| Outcomes.ForEach | Python/Python_Cryptography.py:33-34 | A printing loop finishes iff no iteration raises; every warning comes from some iteration, and when it finishes every iteration's warnings are printed |
| Outcomes.OnePerMatch | Python/Python_LoggingAndErrorHandling.py:32-34 | A loop printing one warning per matching element prints exactly as many copies as there are matching positions |
| Outcomes.OnePerMatchAppend | Python/Python_LoggingAndErrorHandling.py:32-34 | Printing one copy per match over `a + b` prints the copies for `a`, then those for `b` |
| Outcomes.ForEachOnePerMatch | Python/Python_LoggingAndErrorHandling.py:26-34 | A loop whose body prints `w` exactly for the matching elements always finishes and prints one copy per match |
| Outcomes.ForEachError | Python/Python_Cryptography.py:33-34 | The exception that ends a printing loop is one that an iteration raised |
| Outcomes.Filter | Python/Python_SecureCommunications.py:29-32 | A filtering list comprehension keeps, in order, exactly the elements satisfying the condition |
| Outcomes.FilterAppend | Python/Python_SecureCommunications.py:29-32 | Filtering `a + b` filters `a`, then `b` |
| Ast.Children | Python/Python_Cryptography.py:33 | Every child of a node is structurally smaller than the node |
| Ast.Walk | Python/Python_Cryptography.py:33 | `ast.walk` yields its root first and then, breadth-first, the nodes below it (see Left out for keyword arguments and handlers) |
| Ast.WalkIsPermutation | Python/Python_Cryptography.py:33 | The breadth-first walk yields exactly the nodes of the subtree, each as often as the pre-order enumeration does |
| Ast.WalkMembers | Python/Python_Cryptography.py:33 | A node is walked from `n` iff it is `n` or is walked from one of `n`'s children |
| Ast.WalkStaysInside | Python/Python_Cryptography.py:33 | Every walked node is the root or strictly inside it |
| Ast.WalkTransitive | Python/Python_Cryptography.py:33 | A node walked from a walked node is walked from the root |
| Ast.WalkLength | Python/Python_Cryptography.py:33 | The walk yields as many nodes as the subtree has |
| Ast.CalleeName | Python/Python_Cryptography.py:35 | The callee name is `attr` of an attribute, `id` of a name, and AttributeError for any other callee |
| Ast.IdentifierHasNoDot | Python/Python_apiAudit.py:14 | An identifier contains no dot, so it differs from every dotted name |
| Ast.CalleeIsIdentifier | Python/Python_apiAudit.py:14 | In a subtree whose names and attributes are identifiers, every call's callee name is an identifier |
| Ast.AsciiBytes | Python/Python_SecureConfigAudit.py:41 | A bytes pattern has the same length as its text, byte for character |
| InvalidLogic.LastKeywordValueIsLast | Python/InvalidLogic.py:118-124 | The keyword loop keeps the value of the last keyword with a given name; nothing is kept iff no keyword has that name |
| InvalidLogic.GetRangeIterableValues | Python/InvalidLogic.py:108-125 | The bounds of a `range` call are `(0, a0, 1)`, `(a0, a1, 1)` or `(a0, a1, a2)` for one to three positional arguments; otherwise they come from the last `start`, `stop` and `step` keywords, with AttributeError for a non-constant value and UnboundLocalError for a missing bound |
| InvalidLogic.PositionalRangeNeverValid | Python/InvalidLogic.py:127-131 | Bounds taken from positional arguments are nodes, never Python ints, so they never pass the bounds test |
| InvalidLogic.IsValidListComprehension | Python/InvalidLogic.py:133-141 | False for anything but a `for` over `range(...)`. For such a loop: true iff the bounds read and are valid, and the bounds read's exception (AttributeError or UnboundLocalError) iff they do not read |
| InvalidLogic.WhileAndLoopNeverValid | Python/InvalidLogic.py:151-155 | The loop over the operands of an `and` only ever returns True or runs out |
| InvalidLogic.IfAndLoopNeverValid | Python/InvalidLogic.py:169-173 | The same for the `if` classifier |
| InvalidLogic.BoolOpAlwaysInvalid | Python/InvalidLogic.py:151-159 | Every `and`/`or` condition is invalid for both `while` and `if` |
| InvalidLogic.WhileConditionMeaning | Python/InvalidLogic.py:143-159 | A condition is invalid iff it is not a `<=`/`>=` comparison of two constant ints under any number of `not`s |
| InvalidLogic.WhileAndIfAgree | Python/InvalidLogic.py:143-177 | The `while` and `if` classifiers agree on every condition |
| InvalidLogic.AuditLogicalErrors | Python/InvalidLogic.py:83-101 | At most one error: for a `for` over `range(...)` a loop-variable error exactly when the bounds are invalid (AttributeError when the target has no `id`); for other `for` loops an invalid iterable; for `while` and `if` an error exactly when the classifier says invalid; nothing for other nodes |
| Cryptography.TablesShareKeys | Python/Python_Cryptography.py:10-26 | The key-size and required-operation tables name the same six primitives |
| Cryptography.UndottedNameNeverFlagged | Python/Python_Cryptography.py:5-7 | None of the three patterns matches a name without a dot |
| Cryptography.CallCheck | Python/Python_Cryptography.py:34-42 | At most one warning. It finishes iff the callee is a name or attribute. The hash, MAC and random warnings fire exactly as the elif chain of the three patterns says. The random warning is withheld when the call is an enclosing call's callee |
| Cryptography.KeySizeCheck | Python/Python_Cryptography.py:49-52 | A weak-key warning exactly when the first `bits` keyword is a truthy number below the primitive's minimum; none without a `bits` keyword; AttributeError when that keyword's value is no constant, TypeError when it is a truthy constant that is no number; it finishes in every other case |
| Cryptography.FirstBits | Python/Python_Cryptography.py:49 | The first `bits` keyword: none iff no keyword is called `bits`, and otherwise the value of the first one |
| Cryptography.OpsCheck | Python/Python_Cryptography.py:53-57 | Finishes iff every positional argument is a constant. Warns iff some required operation is not observed. The reported set is non-empty and disjoint from the observed operations, and together with them it covers the required ones |
| Cryptography.StmtCheck | Python/Python_Cryptography.py:44-57 | Only an assignment to a name of a call of a bare name is checked, with the key-size and operation checks in sequence; it reports only key and operation warnings |
| Cryptography.AuditCryptography | Python/Python_Cryptography.py:29-57 | Nothing for a non-definition. Every key or operation warning comes from a constructor assignment of the body, every other warning from a call of the walked subtree. It finishes iff every walked callee has a name and every statement of the body passes the key checks without raising; then every warning of every walked call and of every body statement is printed |
| Cryptography.CallPhase | Python/Python_Cryptography.py:33-42 | The call phase finishes iff every walked callee has a name, and then prints every call's warnings |
| Cryptography.StatementPhase | Python/Python_Cryptography.py:44-57 | The key phase finishes iff every body statement is readable, and then prints every statement's warnings |
| Cryptography.CallRulesSilent | Python/Python_Cryptography.py:35-42 | With identifier names throughout, the checker prints only key-size and operation warnings |
| Cryptography.CallsOfNestedDefinitionsReported | Python/Python_Cryptography.py:31-34 | A call in a nested definition is reported under both the nested and the enclosing definition's name |
| Cryptography.RsaKeySizes | Python/Python_Cryptography.py:49-52 | `bits=1024` is weak for RSA; `bits=2048` and the falsy `bits=0` are not |
| Cryptography.WeakRsaWithoutOperations | Python/Python_Cryptography.py:44-57 | `key = RSA(bits=1024)` draws the key-size warning and the missing-operations warning for all four operations |
| SecureCommunications.ProtocolCheck | Python/Python_SecureCommunications.py:20-22 | Warns iff the first positional argument is a string literal naming `http://`, `ftp://` or `telnet://` |
| SecureCommunications.VerifyCheck | Python/Python_SecureCommunications.py:24-27 | Only for a callee named exactly `requests`: one warning per `verify=` keyword with a falsy constant |
| SecureCommunications.SelectInsecure | Python/Python_SecureCommunications.py:29-32 | TypeError iff some keyword has no name (`**kwargs`). Otherwise the selection is the keyword names matching the TLS pattern, in call order with repetitions (an order-preserving filter), so its members are exactly those names |
| SecureCommunications.InsecureMembers | Python/Python_SecureCommunications.py:29-32 | The ordered selection holds exactly the matching keyword names |
| SecureCommunications.FilterOfPrefix | Python/Python_SecureCommunications.py:29-32 | One more named keyword appends its name to the selection iff it matches |
| SecureCommunications.InsecureKwargs | Python/Python_SecureCommunications.py:29-32 | The appending loop computes that selection |
| SecureCommunications.KeywordsCheck | Python/Python_SecureCommunications.py:29-34 | Finishes iff the selection succeeds; warns once, with the selected names, iff there are any |
| SecureCommunications.CallCheck | Python/Python_SecureCommunications.py:17-34 | AttributeError for an unnamed callee. Nothing unless the name mentions a network library. Otherwise the protocol, verification and keyword checks run in that order |
| SecureCommunications.AuditSecureCommunication | Python/Python_SecureCommunications.py:10-34 | Nothing for a non-definition. Every warning comes from a walked call whose callee mentions a network library. It finishes iff every walked call has a named callee and, when that name mentions a network library, only named keyword arguments; then every warning of every walked call is printed |
| SecureCommunications.WarningsNeedCommName | Python/Python_SecureCommunications.py:18 | A call that draws a warning has a callee name mentioning a network library |
| SecureCommunications.VerifyAlwaysCollected | Python/Python_SecureCommunications.py:31-32 | A `verify` keyword is always among the collected names |
| SecureCommunications.HttpsNotFlagged | Python/Python_SecureCommunications.py:6 | `https://` is not a plain-text protocol; `http://` is |
| Strings.Lower | Python/Python_AuthenticationAuthorization.py:18 | Lower-casing keeps the length and maps each character to its ASCII lower case |
| Authentication.KeyText | Python/Python_AuthenticationAuthorization.py:23 | Reading a key's text succeeds iff the key is a string literal, and gives its text; a bytes key raises TypeError, any other key AttributeError |
| Authentication.SelectUnchecked | Python/Python_AuthenticationAuthorization.py:23 | Succeeds iff every key is a string literal; otherwise it raises what reading the first non-string key raises. The unchecked keys are the string keys mentioning neither `allow` nor `deny` (ignoring case), in dictionary order with repetitions (an order-preserving filter of the key texts) |
| Authentication.RulesCheck | Python/Python_AuthenticationAuthorization.py:27-32 | Never prints; raises AttributeError iff some value is a constant equal to `True` |
| Authentication.DictCheck | Python/Python_AuthenticationAuthorization.py:21-32 | One warning listing the unchecked keys iff there are any; the key read's exception otherwise |
| Authentication.CallCheck | Python/Python_AuthenticationAuthorization.py:9-32 | Nothing unless the callee is `authenticate` or `authorize`. `authenticate` with a literal lacking `bcrypt`, `scrypt` and `argon2` warns. `authorize` with a literal lacking `secure` (ignoring case) warns, and a dictionary second argument is then checked |
| Authentication.AuditAuth | Python/Python_AuthenticationAuthorization.py:4-32 | Nothing for a non-definition. Every warning comes from a walked call of `authenticate` or `authorize`. It finishes iff every walked callee has a name and every dictionary given to `authorize` has string keys and no value equal to `True`; then every warning of every walked call is printed |
| Authentication.OmittedKeysNameRules | Python/Python_AuthenticationAuthorization.py:23 | A string key missing from the unchecked list mentions a rule |
| Authentication.SessionCheckIgnoresCase | Python/Python_AuthenticationAuthorization.py:18 | `"SecureSession"` passes the session check; `"token"` does not |
| SecureConfig.SecretByteWords | Python/Python_SecureConfigAudit.py:41 | The bytes pattern holds the three secret words, byte for character |
| SecureConfig.CallCheck | Python/Python_SecureConfigAudit.py:11-21 | AttributeError for an unnamed callee; otherwise finishes with at most one warning. `ConfigParser`/`os.environ` always warn; `open` warns iff its first argument is a literal ending in `.ini`; `subprocess.call`/`Popen` warn, with the command, iff the first argument is a literal mentioning `ssh` or `scp`; any other name prints nothing |
| SecureConfig.StmtCheck | Python/Python_SecureConfigAudit.py:26-42 | An assignment finishes iff it has a target. A plain string bound to one of four names draws the hard-coded warning for that name; a literal concatenation bound to one of three draws the concatenation warning; any other assignment prints nothing. A bare string or a `bytes`-annotated bytes constant mentioning a secret word draws its own warning; other statements print nothing |
| SecureConfig.CallPhase | Python/Python_SecureConfigAudit.py:9-21 | The call phase finishes iff every walked callee has a name, and then prints every call's warnings |
| SecureConfig.StatementPhase | Python/Python_SecureConfigAudit.py:26-42 | The statement phase finishes iff every assignment of the body has a target, and then prints every statement's warnings |
| SecureConfig.ComputedSecretIgnored | Python/Python_SecureConfigAudit.py:27-36 | `password = input()` and `self.password = "..."` print nothing |
| SecureConfig.AuditSecureConfig | Python/Python_SecureConfigAudit.py:5-42 | Nothing for a non-definition. Configuration, file and shell warnings come from walked calls, secret warnings from statements of the body. It finishes iff every walked callee has a name and every assignment of the body has a target; then every warning of both phases is printed |
| SecureConfig.ConcatenationSkipsUsername | Python/Python_SecureConfigAudit.py:27-33 | A concatenation bound to `password` is reported but not one bound to `username`, which only the plain-string rule lists |
| SecureConfig.ConfigCallExamples | Python/Python_SecureConfigAudit.py:12-17 | `open("settings.ini")` and `ConfigParser()` warn; `open(path)` does not |
| SecureConfig.NestedSecretIgnored | Python/Python_SecureConfigAudit.py:26-42 | A secret assigned inside a nested block of the body is not seen |
| LoggingErrors.TryCheck | Python/Python_LoggingAndErrorHandling.py:9-15 | Three independent warnings, each exactly when its condition holds. No `Exception` handler. No logging call in the guarded block. Every handler catches `Exception` |
| LoggingErrors.HandlerWarnings | Python/Python_LoggingAndErrorHandling.py:10-15 | With no handlers both handler warnings fire; with handlers at most one does |
| LoggingErrors.TryRules | Python/Python_LoggingAndErrorHandling.py:8-15 | The `try` rules over the body always finish; every warning comes from a `try` statement of the body, and every warning of every such statement is printed |
| LoggingErrors.LoggingCallCheck | Python/Python_LoggingAndErrorHandling.py:19-23 | For an attribute callee, finishes iff its object is a name. For `logging.<attr>`: deprecated iff `attr` is `warn`, `fatal` or `captureWarnings`; level warning iff the second argument is a string that is not a level name |
| LoggingErrors.LoggingRules | Python/Python_LoggingAndErrorHandling.py:18-23 | Only warnings from calls on `logging`. It finishes iff no walked call has an attribute callee whose object is not a name, and otherwise stops with AttributeError; when it finishes every warning of every walked call is printed |
| LoggingErrors.PrintCheck | Python/Python_LoggingAndErrorHandling.py:27-29 | Warns iff the node is a `print` call and the body never logs |
| LoggingErrors.PrintRules | Python/Python_LoggingAndErrorHandling.py:26-29 | Always finishes. Nothing when the body logs; otherwise one warning per walked `print` call |
| LoggingErrors.PrintRulesMeaning | Python/Python_LoggingAndErrorHandling.py:26-29 | In a subtree with a `print` call, the rule warns iff the body never logs |
| LoggingErrors.DocstringRule | Python/Python_LoggingAndErrorHandling.py:36-43 | The per-character docstring loop never prints: no single upper-cased character contains `TODO` or `FIXME` |
| LoggingErrors.AuditErrorHandling | Python/Python_LoggingAndErrorHandling.py:4-34 | Nothing for a non-definition. It finishes iff no walked call has an attribute callee whose object is not a name. Then it prints the `try`, logging, `print` and `assert` rules' warnings in that order; otherwise the `try` warnings and the logging warnings before the AttributeError |
| LoggingErrors.AssertWarningsCounted | Python/Python_LoggingAndErrorHandling.py:32-34 | Exactly one `assert` warning per `assert` statement of the subtree |
| LoggingErrors.PrintWarningMeansNoLogging | Python/Python_LoggingAndErrorHandling.py:26-29 | In a function that calls `print`, the `print` warning appears iff the body never logs |
| LoggingErrors.LoggingCallExamples | Python/Python_LoggingAndErrorHandling.py:19-23 | `logging.warn(...)` is deprecated; `logging.info(msg, "VERBOSE")` has no valid level |
| OutputValidation.ValidateConstant | Python/Python_OutputValidationChecks.py:29-49 | At most one warning, none iff the constant conforms to the expected type (ints in the signed 32-bit range, floats within ±3.4028235e38). The range warnings fire exactly for an int or a float out of range |
| OutputValidation.ValidateType | Python/Python_OutputValidationChecks.py:51-79 | Warns iff the expected type is one of the seven known ones and the name differs |
| OutputValidation.ReturnCheck | Python/Python_OutputValidationChecks.py:9-26 | Only a `return` with a value is checked, and the annotation read's exception stops it. For a checked annotation: a constant gets `validate_constant`'s warnings, a sum those of each constant operand, `x == c` on the first parameter those of `c` (IndexError without parameters), `type(x)` `validate_type`'s; any other value prints nothing |
| OutputValidation.OperandWarnings | Python/Python_OutputValidationChecks.py:18-20 | A sum's operand warns iff it is a constant that does not conform |
| OutputValidation.AuditOutputValidation | Python/Python_OutputValidationChecks.py:4-26 | Nothing for a non-definition. Every warning comes from a `return` of the body. It finishes iff every `return` with a value has a readable annotation and, for an equality test, a first parameter; then every warning of every statement is printed |
| OutputValidation.StockNodesStopTheCheck | Python/Python_OutputValidationChecks.py:11 | When reading `annotation` raises for every value, the check prints nothing, and it stops iff the body has a `return` with a value |
| OutputValidation.IntAnnotationExamples | Python/Python_OutputValidationChecks.py:31-35 | `True` is an int; `2**31` is out of range; `-2**31` is not; `"1"` is no int |
| OutputValidation.FloatAnnotationExamples | Python/Python_OutputValidationChecks.py:37-41 | `1e38` fits; `3.5e38` is out of range; an int is no float |
| Base64.CharValue | Python/Python_MaliciousStringsInModules.py:31 | Each alphabet character carries six bits |
| Base64.ValueChar | Python/Python_MaliciousStringsInModules.py:31 | Every six-bit value has a character that carries it back |
| Base64.Decode | Python/Python_MaliciousStringsInModules.py:31 | Decoding succeeds only on a multiple of four characters, and a non-empty input gives bytes |
| Base64.Encode | Python/Python_MaliciousStringsInModules.py:31 | The encoding is a multiple of four characters from the alphabet and `=` |
| Base64.Bytes3OfChars3 | Python/Python_MaliciousStringsInModules.py:31 | A group of four characters decodes to the three bytes it encodes |
| Base64.DecodeEncode | Python/Python_MaliciousStringsInModules.py:31 | Decoding inverts encoding |
| Base64.DecodePaddedZero | Python/Python_MaliciousStringsInModules.py:31 | `"AA=="` is one zero byte |
| Utf8.SeqLength | Python/Python_MaliciousStringsInModules.py:31 | A one-byte sequence is exactly an ASCII byte; a longer one starts at `0xC2` or above and continues with tail bytes |
| Utf8.ScalarValue | Python/Python_MaliciousStringsInModules.py:31 | A well-formed sequence stands for a scalar value, which is 0 only for the byte 0 |
| Utf8.Decode | Python/Python_MaliciousStringsInModules.py:31 | Decoding yields at most one character per byte |
| Utf8.ZeroOnlyAlone | Python/Python_MaliciousStringsInModules.py:31-32 | A sequence holds a zero byte iff it is the single byte 0 |
| Utf8.NulIffZeroByte | Python/Python_MaliciousStringsInModules.py:31-32 | Decoded text holds NUL iff the bytes hold 0 |
| Utf8.AsciiDecodes | Python/Python_MaliciousStringsInModules.py:31 | ASCII bytes decode one character each, to themselves |
| Utf8.DecodeAsciiByte | Python/Python_MaliciousStringsInModules.py:31 | One ASCII byte is the one-character text of its code |
| Utf8.EncodeScalar | Python/Python_MaliciousStringsInModules.py:31 | A scalar value is encoded in one to four bytes |
| Utf8.EncodeScalarReadsBack | Python/Python_MaliciousStringsInModules.py:31 | Decoding reads back exactly the encoded sequence and its value |
| Utf8.Encode | Python/Python_MaliciousStringsInModules.py:31 | A text takes between one and four bytes per character |
| Utf8.DecodeEncode | Python/Python_MaliciousStringsInModules.py:31 | Decoding inverts encoding |
| MaliciousModules.Run | Python/Python_MaliciousStringsInModules.py:11-13 | The run is the longest prefix of characters of a class |
| MaliciousModules.Base64ShapeSplit | Python/Python_MaliciousStringsInModules.py:11 | The base64 form holds iff a non-empty prefix of class characters is followed only by white space |
| MaliciousModules.GroupsEnd | Python/Python_MaliciousStringsInModules.py:13 | The hex groups form a maximal run of four-character groups of base64-class characters |
| MaliciousModules.HexShapeIsBase64Shape | Python/Python_MaliciousStringsInModules.py:11-13 | Every string of the hex form has the base64 form |
| MaliciousModules.Rot13Char | Python/Python_MaliciousStringsInModules.py:38 | A letter becomes the lower-case letter 13 places on; other characters are kept |
| MaliciousModules.Rot13 | Python/Python_MaliciousStringsInModules.py:38 | ROT13 acts character by character |
| MaliciousModules.Rot13Involution | Python/Python_MaliciousStringsInModules.py:38 | On text without upper-case letters, ROT13 undoes itself |
| MaliciousModules.Rot13KeepsNul | Python/Python_MaliciousStringsInModules.py:38-39 | ROT13 neither makes nor removes a NUL |
| MaliciousModules.Rot13ShapeHasNoNul | Python/Python_MaliciousStringsInModules.py:12 | A string of the ROT13 form has no NUL |
| MaliciousModules.HexValue | Python/Python_MaliciousStringsInModules.py:45 | A hex digit is worth less than 16 |
| MaliciousModules.HexBytes | Python/Python_MaliciousStringsInModules.py:44-45 | One byte per `0x` group, in order; each is the group's high digit times 16 plus its low digit |
| MaliciousModules.HexDigit | Python/Python_MaliciousStringsInModules.py:45 | A hex digit whose value is the given number below 16 |
| MaliciousModules.GroupsReadBack | Python/Python_MaliciousStringsInModules.py:41-45 | Bytes written as `0x` groups form one run of groups to the end, which reads back as the bytes |
| MaliciousModules.HexDecodeEncode | Python/Python_MaliciousStringsInModules.py:41-45 | Round trip: non-empty bytes written as `0x` groups have the hex form, and the hex branch decodes them back |
| MaliciousModules.ObfuscationCheck | Python/Python_MaliciousStringsInModules.py:25-49 | At most one warning, only for string literals; for the base64 form, a warning iff the decoded text holds NUL; nothing for a literal of none of the three forms |
| MaliciousModules.Base64WarningMeansZeroByte | Python/Python_MaliciousStringsInModules.py:29-35 | A base64-form literal is reported iff it decodes, the bytes are well-formed UTF-8, and they hold a zero byte |
| MaliciousModules.OnlyBase64Warns | Python/Python_MaliciousStringsInModules.py:29-49 | Only literals of the base64 form are ever reported |
| MaliciousModules.PaddedZeroText | Python/Python_MaliciousStringsInModules.py:29-31 | `"AA=="` has the base64 form and decodes to the text `"\0"` |
| MaliciousModules.PaddedZeroReported | Python/Python_MaliciousStringsInModules.py:29-33 | `"AA=="` is reported |
| MaliciousModules.PlainTextNotReported | Python/Python_MaliciousStringsInModules.py:29-33 | `"QUJD"` (the text `ABC`) is not reported |
| MaliciousModules.Classify | Python/Python_MaliciousStringsInModules.py:57-60 | A name is a bad keyword iff it is in the keyword set, a bad built-in iff it is in the built-in set but not the keyword set |
| MaliciousModules.FirstComponent | Python/Python_MaliciousStringsInModules.py:56 | The first component has no dot, is a prefix of the name, and is followed by a dot unless it is the whole name |
| MaliciousModules.AliasClasses | Python/Python_MaliciousStringsInModules.py:55-60 | Each alias is classified by its first component |
| MaliciousModules.ImportCheck | Python/Python_MaliciousStringsInModules.py:52-77 | One class per alias of an `import`, that of the alias's first component; one for a `from` import, that of the whole module name, or inspection when it has no module name (`from . import x`); none for other nodes |
| MaliciousModules.SubmoduleImportInspected | Python/Python_MaliciousStringsInModules.py:56-62 | `import os.path` goes to inspection |
| MaliciousModules.BuiltinImportReported | Python/Python_MaliciousStringsInModules.py:59-60 | `import compile` is a bad built-in |
| MaliciousModules.FromImportUsesWholeName | Python/Python_MaliciousStringsInModules.py:68-72 | `import exec.x` is a bad keyword but `from exec.x import y` is inspected |
| MaliciousModules.SharedNamesAreKeywords | Python/Python_MaliciousStringsInModules.py:19-22 | The five names in both sets always count as keywords |
| MaliciousStrings.MaliciousStringCheck | Python/Python_MaliciousStrings.py:11-30 | At most one warning, only for string literals. The execution warning fires iff the literal names execution, ignoring case. Otherwise the module warning fires iff the readable context has a dangerous module, and the function warning iff it has a dangerous function but no dangerous module |
| MaliciousStrings.NoContextNoContextWarning | Python/Python_MaliciousStrings.py:18-30 | When the parent's names cannot be read, only the execution warning remains |
| MaliciousStrings.CaseInsensitiveExamples | Python/Python_MaliciousStrings.py:6 | `"OS.system"` names execution; `"cosine"` does not |
| MaliciousStrings.ModulesBeforeFunctions | Python/Python_MaliciousStrings.py:20-28 | With both `os` and `eval` in context only the module is reported |
| ApiAudit.AfterPrefix | Python/Python_apiAudit.py:5 | The rest after an `api` or `access` prefix |
| ApiAudit.AfterSeparator | Python/Python_apiAudit.py:5 | The rest after an optional `_` |
| ApiAudit.ApiKeyNameIff | Python/Python_apiAudit.py:5 | A name is an API-key name iff, lower-cased, it is a prefix, an optional `_`, `key` or `token`, and an optional final line feed |
| ApiAudit.UpperCaseKeyAccepted | Python/Python_apiAudit.py:5 | `"API_KEY"` is an API-key name |
| ApiAudit.TrailingTextRejected | Python/Python_apiAudit.py:5 | `"apikeys"` is not |
| ApiAudit.LeadingTextRejected | Python/Python_apiAudit.py:5 | `"my_api_key"` is not |
| ApiAudit.Branch | Python/Python_apiAudit.py:16-38 | Every branch of the elif chain needs a dotted name |
| ApiAudit.IdentifierSelectsNoBranch | Python/Python_apiAudit.py:14-38 | An identifier callee name selects no branch |
| ApiAudit.HasSuccessStatus | Python/Python_apiAudit.py:18 | When it finishes, true iff some pair is `"status": "success"`, whatever the other pairs hold; AttributeError exactly when, before any success pair, a key is no constant or a `"status"` key has a non-constant value |
| ApiAudit.ReadFailsShift | Python/Python_apiAudit.py:18 | Past a first pair that neither raises nor matches, the scan raises or matches exactly where it does in the remaining pairs |
| ApiAudit.CallCheck | Python/Python_apiAudit.py:14-19 | AttributeError for an unnamed callee and nothing outside the JSON branch; the only exception it raises is AttributeError. Inside it, with a dictionary first argument: it finishes iff the success scan does, and warns iff the scan finds no success pair; without one, nothing |
| ApiAudit.AuditApiSecurity | Python/Python_apiAudit.py:8-38 | Nothing for a non-definition. Every warning comes from a walked call whose callee selects the JSON-response branch. It finishes iff every walked callee has a name and every JSON-branch dictionary scans without raising; then every warning of every walked call is printed |
| ApiAudit.ApiAuditSilent | Python/Python_apiAudit.py:10-38 | With identifier names throughout, the checker prints nothing, and it finishes iff every call has a named callee |

## Left out

- Reading files, parsing and `traverse_ast` are not part of this model. Each checker is modelled on one node.
- Message texts, line numbers and column offsets are not modelled; a warning value carries the names the message mentions.
- `ast.iter_parents`, used by the crypto random rule, the `getpass` rule and the three ancestry branches of the API checker, is not part of this model.
  - The crypto random rule takes the ancestor test as the parameter `calledByParent`.
  - The `getpass` rule is left out.
  - The API branches for `flask.request`, `HTTPBasicAuth.login_required` and `flask_login.login_required` are left out. `ApiAudit.IdentifierSelectsNoBranch` shows no branch is ever selected.
- Node-parent attributes do not exist on parsed nodes.
  - `node.parent().names` in the malicious-string checker is the input `context`. Its AttributeError is swallowed, as `None`.
  - The allow/deny rule lists of the authorization checker read `rule.parent` and are modelled only as the AttributeError they raise.
- The `JoinedStr` branch of the secret scan is left out.
- The module inspection of imports (`importlib.import_module`, `inspect.getsource` and the search of the module's source) is not part of this model. Such names get the class `Inspected`.
- OutputValidation.ReturnCheck: the annotation read is a parameter, since parsed expressions have no `annotation` attribute.
- Float constants are exact reals. Infinities and NaN, which a literal such as `1e999` produces, are not modelled.
- Character classes and case mapping are ASCII. `\w`, `\s`, `str.isalpha`, `str.lower` and `str.upper` on non-ASCII characters (such as the Kelvin sign, or the long s) are not modelled.
- Base64.Decode is strict RFC 4648 decoding of the run of alphabet characters. The non-strict quirks of Python's `b64decode` are not modelled. Those are: characters outside the alphabet being dropped, `=` in the middle of the input, and data after the padding.
- Walk: `ast.walk` enqueues `keyword` and `ExceptHandler` objects as nodes of their own; the model does not, so a node under a keyword argument or an exception handler is visited one level earlier than Python visits it. The set of walked nodes is the same, but their order can differ, and with it the order of the warnings and which warnings are printed before an exception (for `def h(): foo(x=bar()()); g(requests("http://a"))`, Python prints the protocol warning and then raises; the model raises first).
- AuditLogicalErrors (`InvalidLogic.AuditLogicalErrors`) and the `while`/`if` classifiers: `InvalidLogic.py` calls `is_constant_int` (lines 149 and 167) but never defines it, so as written every `while` or `if` whose test is a `<=`/`>=` comparison raises NameError. The model takes the test as the parameter `isConstantInt`, which never raises.
- Keyword, handler, alias and operator objects are not nodes. The nodes they hold are walked as children of the node that holds them, so they are never themselves checked.
- A function's arguments, decorators and return annotation are not children of its definition. Neither are the `**` unpacking entries of a dictionary display (keys that are `None`).
- Every comparison has at least one operator and comparator, as the parser guarantees.
- Cryptography.AuditCryptography uses the module's own `key_sizes` and `required_ops` tables (the constants `KeySizes` and `RequiredOps`); a caller passing tables of its own to `audit_cryptography` is not modelled.
- Complex constants (`1j`) and `...` have no literal case, so `RSA(bits=1j)`, which raises TypeError at Python_Cryptography.py:51, and `return ...` under an `int` annotation, which draws the type warning, are not modelled.
- `FunctionDef.params` stands for `node.args.args`, the ordinary parameters only; positional-only, `*args`, keyword-only and `**kwargs` parameters are not modelled. So `def f(a, /): return a == 1`, which raises IndexError at Python_OutputValidationChecks.py:22, is modelled with empty `params`, where the model raises IndexError too.
- `DocstringRule` takes `ast.get_docstring(node) or ""` and `str.upper` on one character as inputs. The latter has at most three characters in Unicode's full case mapping. The line counter only feeds the message.
