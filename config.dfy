/** Reading the action's inputs (index.js:156-194). The inputs are given as a
    map from input names to their values as set, before trimming. A name
    that is absent reads as "", as `getInput` of `@actions/core` gives for an
    input that was not set. */
module Config {
  import opened Wrappers
  import opened Decimal

  /** A JavaScript value as the coercion helpers receive it. */
  datatype JsValue = JsBool(b: bool) | JsInt(n: int) | JsString(s: string)

  /** What `value * 1` gives: an integer, or, for a string not made of
      decimal digits alone, the number JavaScript reads from that string
      (possibly `NaN`), kept here as the string itself. */
  datatype JsNumber = Int(value: int) | Other(source: string)

  /** `toBool`: a boolean is kept, anything else is true only when it is the
      string "true". */
  function ToBool(value: JsValue): (b: bool)
    ensures b <==> value == JsBool(true) || value == JsString("true")
  {
    match value
    case JsBool(b) => b
    case _ => value == JsString("true")
  }

  /** `toInt`, that is `value * 1`. */
  function ToInt(value: JsValue): (n: JsNumber)
    ensures value.JsInt? ==> n == Int(value.n)
    ensures value.JsBool? ==> n == Int(if value.b then 1 else 0)
    ensures value.JsString? && IsDigits(value.s) ==> n == Int(ParseNat(value.s))
    ensures value == JsString("") ==> n == Int(0)
  {
    match value
    case JsBool(b) => Int(if b then 1 else 0)
    case JsInt(i) => Int(i)
    case JsString(s) => if IsDigits(s) then Int(ParseNat(s)) else Other(s)
  }

  /** A threshold written out in decimal is read back as that number. */
  lemma ToIntOfDecimal(n: nat)
    ensures ToInt(JsString(NatToString(n))) == Int(n)
  {
    ParseNatToString(n);
  }

  /** The characters JavaScript's `String.prototype.trim` removes: the
      WhiteSpace and LineTerminator characters of ECMAScript. */
  const JsSpaces: set<char> := {
    '\t', '\n', '\U{B}', '\U{C}', '\r', ' ', '\U{A0}', '\U{1680}',
    '\U{2000}', '\U{2001}', '\U{2002}', '\U{2003}', '\U{2004}', '\U{2005}',
    '\U{2006}', '\U{2007}', '\U{2008}', '\U{2009}', '\U{200A}',
    '\U{2028}', '\U{2029}', '\U{202F}', '\U{205F}', '\U{3000}', '\U{FEFF}'}

  /** `s` with its leading characters from `spaces` removed. */
  function TrimStart(s: string, spaces: set<char>): string
  {
    if s != [] && s[0] in spaces then TrimStart(s[1..], spaces) else s
  }

  /** `s` with its trailing characters from `spaces` removed. */
  function TrimEnd(s: string, spaces: set<char>): string
  {
    if s != [] && s[|s| - 1] in spaces then TrimEnd(s[..|s| - 1], spaces) else s
  }

  /** `TrimStart` drops a prefix of spaces, and what it keeps does not start
      with one. */
  lemma {:induction false} TrimStartDrops(s: string, spaces: set<char>)
    ensures var t := TrimStart(s, spaces);
      && |t| <= |s| && t == s[|s| - |t|..]
      && (forall i :: 0 <= i < |s| - |t| ==> s[i] in spaces)
      && (t == [] || t[0] !in spaces)
  {
    if s != [] && s[0] in spaces {
      TrimStartDrops(s[1..], spaces);
      var t := TrimStart(s, spaces);
      forall i | 0 < i < |s| - |t| ensures s[i] in spaces {
        assert s[i] == s[1..][i - 1];
      }
    }
  }

  /** `TrimEnd` drops a suffix of spaces, and what it keeps does not end
      with one. */
  lemma {:induction false} TrimEndDrops(s: string, spaces: set<char>)
    ensures var t := TrimEnd(s, spaces);
      && |t| <= |s| && t == s[..|t|]
      && (forall i :: |t| <= i < |s| ==> s[i] in spaces)
      && (t == [] || t[|t| - 1] !in spaces)
  {
    if s != [] && s[|s| - 1] in spaces {
      var p := s[..|s| - 1];
      TrimEndDrops(p, spaces);
      var t := TrimEnd(s, spaces);
      assert t == p[..|t|];
      forall i | |t| <= i < |s| - 1 ensures s[i] in spaces {
        assert s[i] == p[i];
      }
    }
  }

  /** Both ends of `s` stripped of `spaces`. */
  function TrimWith(s: string, spaces: set<char>): string
  {
    TrimEnd(TrimStart(s, spaces), spaces)
  }

  /** `String.prototype.trim`. */
  function Trim(s: string): string
  {
    TrimWith(s, JsSpaces)
  }

  /** The trimmed value is the stretch `s[i..i + |t|]` of `s` with only
      spaces on either side, and it neither starts nor ends with a space. */
  lemma TrimSlice(s: string, spaces: set<char>) returns (i: nat)
    ensures var t := TrimWith(s, spaces);
      && i + |t| <= |s| && t == s[i..i + |t|]
      && (forall k :: 0 <= k < i ==> s[k] in spaces)
      && (forall k :: i + |t| <= k < |s| ==> s[k] in spaces)
      && (t == [] || (t[0] !in spaces && t[|t| - 1] !in spaces))
  {
    var u := TrimStart(s, spaces);
    var t := TrimEnd(u, spaces);
    TrimStartDrops(s, spaces);
    TrimEndDrops(u, spaces);
    i := |s| - |u|;
    assert t == u[..|t|];
    forall k | i + |t| <= k < |s| ensures s[k] in spaces {
      assert s[k] == u[k - i];
    }
    if t != [] {
      assert t[0] == u[0];
    }
  }

  /** A value without outer spaces is read unchanged. */
  lemma TrimKeeps(s: string)
    requires s == [] || (s[0] !in JsSpaces && s[|s| - 1] !in JsSpaces)
    ensures Trim(s) == s
  {
  }

  /** The value of input `name` as set in the environment, before trimming. */
  function RawInput(inputs: map<string, string>, name: string): string
  {
    if name in inputs then inputs[name] else ""
  }

  /** `getInput(name)`: the environment value, trimmed. */
  function GetInput(inputs: map<string, string>, name: string): string
  {
    Trim(RawInput(inputs, name))
  }

  /** `getInput(name, { required: true })`: the value is tested before it is
      trimmed, so only an unset or empty value is an error. */
  function GetRequired(inputs: map<string, string>, name: string): (r: Result<string>)
    ensures r.Ok? <==> RawInput(inputs, name) != ""
    ensures r.Ok? ==> r.value == GetInput(inputs, name)
    ensures r.Err? ==> r.error == "Input required and not supplied: " + name
  {
    var v := RawInput(inputs, name);
    if v == "" then Err("Input required and not supplied: " + name) else Ok(Trim(v))
  }

  /** A required input set to blanks only is accepted and reads as "". */
  lemma BlankRequiredReadsEmpty(inputs: map<string, string>, name: string)
    requires name in inputs && inputs[name] != []
    requires forall i :: 0 <= i < |inputs[name]| ==> inputs[name][i] in JsSpaces
    ensures GetRequired(inputs, name) == Ok("")
  {
    var i := TrimSlice(inputs[name], JsSpaces);
  }

  /** `input || fallback` for a string input and a number fallback. */
  function OrNumber(input: string, fallback: int): (value: JsValue)
    ensures ToInt(value) == (if input == "" then Int(fallback) else ToInt(JsString(input)))
  {
    if input == "" then JsInt(fallback) else JsString(input)
  }

  /** The first required input, in the order they are read, that is empty. */
  function FirstMissing(inputs: map<string, string>): string
  {
    if RawInput(inputs, "github_token") == "" then "github_token"
    else if RawInput(inputs, "clover_file") == "" then "clover_file"
    else "original_clover_file"
  }

  const CommentModes: seq<string> := ["replace", "update", "insert"]

  const DefaultContext := "Coverage Report"

  datatype Config = Config(
    comment: bool,
    check: bool,
    githubToken: string,
    cloverFile: string,
    thresholdAlert: JsNumber,
    thresholdWarning: JsNumber,
    statusContext: string,
    commentContext: string,
    commentMode: string,
    originalCloverFile: string)

  /** `loadConfig`: reads every input in the source's order, fails on the
      first required input that is empty, applies the defaults, and falls
      back to "replace" for a comment mode it does not know. */
  method LoadConfig(inputs: map<string, string>) returns (r: Result<Config>)
    ensures r.Err? <==> RawInput(inputs, "github_token") == "" || RawInput(inputs, "clover_file") == ""
                        || RawInput(inputs, "original_clover_file") == ""
    ensures r.Err? ==> r.error == "Input required and not supplied: " + FirstMissing(inputs)
    ensures r.Ok? ==>
      var c := r.value;
      && c.comment == (GetInput(inputs, "comment") == "true")
      && c.check == (GetInput(inputs, "check") == "true")
      && c.githubToken == GetInput(inputs, "github_token")
      && c.cloverFile == GetInput(inputs, "clover_file")
      && c.originalCloverFile == GetInput(inputs, "original_clover_file")
      && c.thresholdAlert == (if GetInput(inputs, "threshold_alert") == "" then Int(90)
                              else ToInt(JsString(GetInput(inputs, "threshold_alert"))))
      && c.thresholdWarning == (if GetInput(inputs, "threshold_warning") == "" then Int(50)
                                else ToInt(JsString(GetInput(inputs, "threshold_warning"))))
      && c.statusContext == (if GetInput(inputs, "status_context") == "" then DefaultContext
                             else GetInput(inputs, "status_context"))
      && c.commentContext == (if GetInput(inputs, "comment_context") == "" then DefaultContext
                              else GetInput(inputs, "comment_context"))
      && c.commentMode in CommentModes
      && c.commentMode == (if GetInput(inputs, "comment_mode") in CommentModes
                           then GetInput(inputs, "comment_mode") else "replace")
  {
    var comment := ToBool(JsString(GetInput(inputs, "comment")));
    var check := ToBool(JsString(GetInput(inputs, "check")));
    var githubToken := GetRequired(inputs, "github_token");
    if githubToken.Err? {
      return Err(githubToken.error);
    }
    var cloverFile := GetRequired(inputs, "clover_file");
    if cloverFile.Err? {
      return Err(cloverFile.error);
    }
    var originalCloverFile := GetRequired(inputs, "original_clover_file");
    if originalCloverFile.Err? {
      return Err(originalCloverFile.error);
    }
    var thresholdAlert := ToInt(OrNumber(GetInput(inputs, "threshold_alert"), 90));
    var thresholdWarning := ToInt(OrNumber(GetInput(inputs, "threshold_warning"), 50));
    var statusContext := GetInput(inputs, "status_context");
    if statusContext == "" {
      statusContext := DefaultContext;
    }
    var commentContext := GetInput(inputs, "comment_context");
    if commentContext == "" {
      commentContext := DefaultContext;
    }
    var commentMode := GetInput(inputs, "comment_mode");
    if commentMode !in CommentModes {
      commentMode := "replace";
    }
    r := Ok(Config(comment, check, githubToken.value, cloverFile.value, thresholdAlert, thresholdWarning,
      statusContext, commentContext, commentMode, originalCloverFile.value));
  }
}
