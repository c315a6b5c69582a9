/** `ArgsName`: command-line arguments of the form `-key=value` parsed into
    a key-to-value map, checked one argument at a time and in order; the
    first malformed argument aborts the parse. */
module ArgsName {

  import opened Results

  datatype Pair = Pair(key: string, value: string)

  /** `s.indexOf(c)`: the position of the first `c`, or -1. */
  function IndexOf(s: string, c: char): (r: int)
    ensures -1 <= r < |s|
    ensures r == -1 <==> c !in s
    ensures 0 <= r ==> s[r] == c && c !in s[..r]
    decreases |s|
  {
    if s == [] then -1
    else if s[0] == c then 0
    else
      var k := IndexOf(s[1..], c);
      assert 0 <= k ==> s[1..][..k] == s[1..k + 1] && s[..k + 1] == [s[0]] + s[1..k + 1];
      if k < 0 then -1 else k + 1
  }

  predicate StartsWithDash(arg: string) {
    |arg| > 0 && arg[0] == '-'
  }

  /** The checks `parse` makes on one argument, in the order it makes them: a
      leading '-', some '=', a first '=' at index 2 or later (a non-empty
      key), something after the first '='. */
  function ParseArg(arg: string): (r: Result<Pair>)
    ensures r == Err(MissingDash(arg)) <==> !StartsWithDash(arg)
    ensures r == Err(MissingEquals(arg)) <==> StartsWithDash(arg) && '=' !in arg
    ensures r == Err(MissingKey(arg)) <==> StartsWithDash(arg) && |arg| >= 2 && arg[1] == '='
    ensures r == Err(MissingValue(arg)) <==>
              StartsWithDash(arg) && |arg| >= 3 && arg[1] != '=' && arg[|arg| - 1] == '=' && '=' !in arg[..|arg| - 1]
    ensures r.Err? ==> r.error in {MissingDash(arg), MissingEquals(arg), MissingKey(arg), MissingValue(arg)}
  {
    if !StartsWithDash(arg) then Err(MissingDash(arg))
    else if '=' !in arg then Err(MissingEquals(arg))
    else
      var eq := IndexOf(arg, '=');
      if eq < 2 then Err(MissingKey(arg))
      else if eq + 1 == |arg| then Err(MissingValue(arg))
      else Ok(Pair(arg[1..eq], arg[eq + 1..]))
  }

  /** A parsed argument is `-key=value` with a non-empty key free of '='
      and a non-empty value. */
  lemma ParsedArgShape(arg: string)
    requires ParseArg(arg).Ok?
    ensures var kv := ParseArg(arg).value;
            && arg == "-" + kv.key + "=" + kv.value
            && |kv.key| > 0 && '=' !in kv.key && |kv.value| > 0
  {
    var eq := IndexOf(arg, '=');
    assert arg[..eq] == "-" + arg[1..eq];
    assert arg == arg[..eq] + "=" + arg[eq + 1..];
  }

  /** Every well-formed `-key=value` parses back to its key and value; the
      value may itself contain '='. With ParsedArgShape this makes
      formatting and parsing inverse to each other. */
  lemma FormattedArgParses(key: string, value: string)
    requires |key| > 0 && '=' !in key && |value| > 0
    ensures ParseArg("-" + key + "=" + value) == Ok(Pair(key, value))
  {
    var arg := "-" + key + "=" + value;
    var eq := |key| + 1;
    assert arg[eq] == '=';
    assert arg[..eq] == "-" + key;
    assert arg[1..eq] == key;
    assert arg[eq + 1..] == value;
    assert '=' !in arg[..eq];
  }

  /** `parse`: the arguments from first to last, each one's pair put into
      the map, so a later argument with the same key overwrites. It
      succeeds iff every argument is well formed. */
  function ParseArgs(args: seq<string>): (r: Result<map<string, string>>)
    ensures r.Ok? <==> forall i :: 0 <= i < |args| ==> ParseArg(args[i]).Ok?
    ensures r != Err(ArgumentsNotPassed)
    decreases |args|
  {
    if args == [] then Ok(map[])
    else
      var init := args[..|args| - 1];
      assert forall i :: 0 <= i < |init| ==> init[i] == args[i];
      match ParseArgs(init)
      case Err(e) => Err(e)
      case Ok(values) =>
        match ParseArg(args[|args| - 1])
        case Err(e) => Err(e)
        case Ok(kv) => Ok(values[kv.key := kv.value])
  }

  /** `ArgsName.of`: an empty argument array is an error of its own. */
  function Of(args: seq<string>): (r: Result<map<string, string>>)
    ensures r == Err(ArgumentsNotPassed) <==> |args| == 0
    ensures |args| > 0 ==> r == ParseArgs(args)
  {
    if |args| == 0 then Err(ArgumentsNotPassed) else ParseArgs(args)
  }

  /** `get`: the stored value, or an error naming the missing key. */
  function Get(values: map<string, string>, key: string): (r: Result<string>)
    ensures r.Ok? <==> key in values
    ensures r.Ok? ==> r.value == values[key]
    ensures r.Err? ==> r.error == KeyNotFound(key)
  {
    if key !in values then Err(KeyNotFound(key)) else Ok(values[key])
  }

  // ---------------------------------------------------------------------
  // Properties of the parse

  /** The key an argument defines, when it is well formed. */
  predicate Defines(arg: string, key: string) {
    ParseArg(arg).Ok? && ParseArg(arg).value.key == key
  }

  /** The parse fails iff some argument is malformed, and then with the
      error of the first malformed one. */
  lemma ParseArgsFailsAtFirstBadArgument(args: seq<string>)
    ensures ParseArgs(args).Err? <==> exists i :: 0 <= i < |args| && ParseArg(args[i]).Err?
    ensures ParseArgs(args).Err? ==>
              exists i :: 0 <= i < |args| && ParseArg(args[i]) == Err(ParseArgs(args).error)
                && forall j :: 0 <= j < i ==> ParseArg(args[j]).Ok?
  {
    if ParseArgs(args).Err? {
      var i := FirstBadArgument(args);
    }
  }

  /** A failed parse names the first malformed argument. */
  lemma {:induction false} FirstBadArgument(args: seq<string>) returns (i: nat)
    requires ParseArgs(args).Err?
    ensures i < |args| && ParseArg(args[i]) == Err(ParseArgs(args).error)
    ensures forall j :: 0 <= j < i ==> ParseArg(args[j]).Ok?
    decreases |args|
  {
    var n := |args| - 1;
    var init := args[..n];
    if ParseArgs(init).Err? {
      i := FirstBadArgument(init);
      assert init[i] == args[i];
      assert forall j :: 0 <= j < i ==> init[j] == args[j];
    } else {
      i := n;
      assert forall j :: 0 <= j < n ==> init[j] == args[j];
    }
  }

  /** After a successful parse the keys are exactly those the arguments
      define. */
  lemma {:induction false} ParseArgsKeys(args: seq<string>, key: string)
    requires ParseArgs(args).Ok?
    ensures key in ParseArgs(args).value <==> exists i :: 0 <= i < |args| && Defines(args[i], key)
    decreases |args|
  {
    if args != [] {
      var n := |args| - 1;
      var init, last := args[..n], args[n];
      var kv := ParseArg(last).value;
      assert ParseArgs(args).value == ParseArgs(init).value[kv.key := kv.value];
      ParseArgsKeys(init, key);
      if key == kv.key {
        assert Defines(args[n], key);
      } else {
        if key in ParseArgs(init).value {
          var i :| 0 <= i < n && Defines(init[i], key);
          assert init[i] == args[i];
        }
        if exists i :: 0 <= i < |args| && Defines(args[i], key) {
          var i :| 0 <= i < |args| && Defines(args[i], key);
          assert i != n;
          assert init[i] == args[i];
        }
      }
    }
  }

  /** Each key maps to the value of the last argument that defines it. */
  lemma {:induction false} ParseArgsLastWriteWins(args: seq<string>, i: nat)
    requires ParseArgs(args).Ok?
    requires i < |args| && ParseArg(args[i]).Ok?
    requires forall j :: i < j < |args| ==> !Defines(args[j], ParseArg(args[i]).value.key)
    ensures ParseArg(args[i]).value.key in ParseArgs(args).value
    ensures ParseArgs(args).value[ParseArg(args[i]).value.key] == ParseArg(args[i]).value.value
    decreases |args|
  {
    var n := |args| - 1;
    var init, last := args[..n], args[n];
    var kv := ParseArg(args[i]).value;
    if i < n {
      assert init[i] == args[i];
      assert forall j :: 0 <= j < n ==> init[j] == args[j];
      ParseArgsLastWriteWins(init, i);
      assert !Defines(last, kv.key);
    }
  }

  /** Parsing one more argument changes only the entry of its key. */
  lemma ParseArgsAppend(args: seq<string>, arg: string)
    requires ParseArgs(args).Ok? && ParseArg(arg).Ok?
    ensures ParseArgs(args + [arg]).Ok?
    ensures ParseArgs(args + [arg]).value[ParseArg(arg).value.key] == ParseArg(arg).value.value
    ensures forall key :: key != ParseArg(arg).value.key ==>
              (key in ParseArgs(args + [arg]).value <==> key in ParseArgs(args).value) &&
              (key in ParseArgs(args).value ==> ParseArgs(args + [arg]).value[key] == ParseArgs(args).value[key])
  {
    assert (args + [arg])[..|args|] == args;
  }

  /** What `get` returns after `of`: the value of the last argument that
      defines the key, or an error when no argument defines it. */
  lemma GetAfterOf(args: seq<string>, key: string)
    requires Of(args).Ok?
    ensures Get(Of(args).value, key).Ok? <==> exists i :: 0 <= i < |args| && Defines(args[i], key)
    ensures Get(Of(args).value, key).Ok? ==>
              exists i :: 0 <= i < |args| && args[i] == "-" + key + "=" + Get(Of(args).value, key).value
                && forall j :: i < j < |args| ==> !Defines(args[j], key)
  {
    var values := ParseArgs(args).value;
    ParseArgsKeys(args, key);
    if key in values {
      var i :| 0 <= i < |args| && Defines(args[i], key);
      var l := LastDefinition(args, key, i);
      ParseArgsLastWriteWins(args, l);
      ParsedArgShape(args[l]);
    }
  }

  /** If some argument defines `key`, one of them is the last to do so. */
  lemma {:induction false} LastDefinition(args: seq<string>, key: string, i: nat) returns (l: nat)
    requires i < |args| && Defines(args[i], key)
    ensures i <= l < |args| && Defines(args[l], key)
    ensures forall j :: l < j < |args| ==> !Defines(args[j], key)
    decreases |args| - i
  {
    l := i;
    if exists j :: i < j < |args| && Defines(args[j], key) {
      var j :| i < j < |args| && Defines(args[j], key);
      l := LastDefinition(args, key, j);
    }
  }
}
