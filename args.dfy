/** The command-line tokenizer of `src/argsparser.py`: each `--key=value` token becomes an
    entry of a dictionary, and a token that is not of that form maps its key to the text
    `error`. */
module Args {
  import opened Text

  /** A dictionary value. `parseArgs` first stores either the text after `=` or Python's
      `True` (`Flag`), then replaces an empty text or `True` by `'error'`. */
  datatype Value = Str(text: string) | Flag

  const ErrorValue: Value := Str("error")

  /** The number of positions of `s` holding `c`. */
  function CountChar(s: string, c: char): nat {
    if s == [] then 0 else (if s[0] == c then 1 else 0) + CountChar(s[1..], c)
  }

  /** `s.split(sep)` for a one-character separator: the pieces of `s` between the
      occurrences of `sep`, from left to right, empty pieces included. */
  function Split(s: string, sep: char): (r: seq<string>)
    ensures r != []
  {
    if s == [] then [""]
    else
      var rest := Split(s[1..], sep);
      if s[0] == sep then [""] + rest else [[s[0]] + rest[0]] + rest[1..]
  }

  /** There is one piece more than there are separators. */
  lemma {:induction false} SplitCount(s: string, sep: char)
    ensures |Split(s, sep)| == CountChar(s, sep) + 1
  {
    if s != [] {
      SplitCount(s[1..], sep);
    }
  }

  /** No piece holds the separator. */
  lemma {:induction false} SplitPieces(s: string, sep: char)
    ensures forall p :: 0 <= p < |Split(s, sep)| ==> sep !in Split(s, sep)[p]
  {
    if s != [] {
      var rest := Split(s[1..], sep);
      SplitPieces(s[1..], sep);
      var r := Split(s, sep);
      if s[0] != sep {
        assert r == [[s[0]] + rest[0]] + rest[1..];
        forall p | 0 <= p < |r| ensures sep !in r[p] {
          if p > 0 {
            assert r[p] == rest[p];
          }
        }
      }
    }
  }

  /** Joining the pieces with the separator gives back the text. */
  lemma {:induction false} SplitJoin(s: string, sep: char)
    ensures Join(Split(s, sep), [sep]) == s
  {
    if s != [] {
      var rest := Split(s[1..], sep);
      SplitJoin(s[1..], sep);
      var r := Split(s, sep);
      if s[0] == sep {
        assert r[0] == "" && r[1..] == rest;
        assert Join(r, [sep]) == "" + [sep] + Join(rest, [sep]);
      } else if |rest| == 1 {
        assert r == [[s[0]] + rest[0]];
      } else {
        assert r[0] == [s[0]] + rest[0] && r[1..] == rest[1..];
        assert Join(r, [sep]) == [s[0]] + rest[0] + [sep] + Join(rest[1..], [sep]);
      }
      assert s == [s[0]] + s[1..];
    }
  }

  /** A text without the separator is a single piece. */
  lemma {:induction false} SplitNone(s: string, sep: char)
    requires sep !in s
    ensures Split(s, sep) == [s]
  {
    if s != [] {
      SplitNone(s[1..], sep);
      assert [s[0]] + s[1..] == s;
    }
  }

  /** A first piece without the separator, then the separator, then the rest. */
  lemma {:induction false} SplitAt(p: string, sep: char, rest: string)
    requires sep !in p
    ensures Split(p + [sep] + rest, sep) == [p] + Split(rest, sep)
  {
    var s := p + [sep] + rest;
    if p == [] {
      assert s[1..] == rest;
    } else {
      assert s[1..] == p[1..] + [sep] + rest;
      SplitAt(p[1..], sep, rest);
      assert [p[0]] + p[1..] == p;
    }
  }

  /** `s.replace('--', '')`: every `--`, found scanning left to right without overlap, is
      removed. */
  function RemoveDashes(s: string): (r: string)
    ensures |r| <= |s|
  {
    if |s| >= 2 && s[0] == '-' && s[1] == '-' then RemoveDashes(s[2..])
    else if s == [] then []
    else [s[0]] + RemoveDashes(s[1..])
  }

  predicate DashPair(s: string, k: nat)
    requires k + 1 < |s|
  {
    s[k] == '-' && s[k + 1] == '-'
  }

  predicate NoDoubleDash(s: string) {
    forall k :: 0 <= k < |s| - 1 ==> !DashPair(s, k)
  }

  /** The result holds no `--`, and a text without `--` is left as it is; so removing twice
      is removing once. */
  lemma {:induction false} RemoveDashesSpec(s: string)
    ensures NoDoubleDash(RemoveDashes(s))
    ensures NoDoubleDash(s) ==> RemoveDashes(s) == s
  {
    if |s| >= 2 && s[0] == '-' && s[1] == '-' {
      RemoveDashesSpec(s[2..]);
      assert DashPair(s, 0);
    } else if s != [] {
      var t := RemoveDashes(s[1..]);
      RemoveDashesSpec(s[1..]);
      var r := [s[0]] + t;
      assert RemoveDashes(s) == r;
      forall k | 0 <= k < |r| - 1 ensures !DashPair(r, k) {
        if k > 0 {
          assert r[k] == t[k - 1] && r[k + 1] == t[k];
          assert !DashPair(t, k - 1);
        } else if s[0] == '-' {
          assert s[1] != '-';
          assert t[0] == s[1];
        }
      }
      if NoDoubleDash(s) {
        forall k | 0 <= k < |s| - 2 ensures !DashPair(s[1..], k) {
          assert !DashPair(s, k + 1);
        }
        assert [s[0]] + s[1..] == s;
      }
    }
  }

  lemma RemoveDashesTwice(s: string)
    ensures RemoveDashes(RemoveDashes(s)) == RemoveDashes(s)
  {
    RemoveDashesSpec(s);
    RemoveDashesSpec(RemoveDashes(s));
  }

  /** The dictionary key of a token: the text before its first `=`, with `--` removed. */
  function ArgName(arg: string): string {
    RemoveDashes(Split(arg, '=')[0])
  }

  /** The dictionary value of a token: the text after `=` when the token holds exactly one
      `=` and that text is not empty, `'error'` otherwise. */
  function ArgValue(arg: string): Value {
    var argSplit := Split(arg, '=');
    if |argSplit| == 2 && argSplit[1] != "" then Str(argSplit[1]) else ErrorValue
  }

  /** `--key=value` with one `=` and a non-empty value maps `key` to `value`. */
  lemma ArgWithValue(p: string, v: string)
    requires '=' !in p && '=' !in v
    ensures ArgName(p + "=" + v) == RemoveDashes(p)
    ensures ArgValue(p + "=" + v) == if v == "" then ErrorValue else Str(v)
  {
    SplitAt(p, '=', v);
    SplitNone(v, '=');
  }

  /** A token without `=` maps its name to `'error'`. */
  lemma ArgWithoutValue(p: string)
    requires '=' !in p
    ensures ArgName(p) == RemoveDashes(p) && ArgValue(p) == ErrorValue
  {
    SplitNone(p, '=');
  }

  /** A token with two or more `=` maps its key to `'error'`. */
  lemma ArgManyValues(arg: string)
    requires CountChar(arg, '=') >= 2
    ensures ArgValue(arg) == ErrorValue
  {
    SplitCount(arg, '=');
  }

  /** The dictionary `parseArgs` returns: the tokens written one after the other, a later
      token overwriting the entry of an earlier one with the same key. */
  function ArgsMap(args: seq<string>): map<string, Value> {
    if args == [] then map[]
    else ArgsMap(args[..|args| - 1])[ArgName(args[|args| - 1]) := ArgValue(args[|args| - 1])]
  }

  /** The keys are exactly the tokens' names, and every value is a non-empty text. */
  lemma {:induction false} ArgsMapKeys(args: seq<string>)
    ensures ArgsMap(args).Keys == set a | a in args :: ArgName(a)
    ensures forall k :: k in ArgsMap(args) ==> ArgsMap(args)[k].Str? && ArgsMap(args)[k].text != ""
  {
    if args != [] {
      var init := args[..|args| - 1];
      ArgsMapKeys(init);
      assert args == init + [args[|args| - 1]];
      assert (set a | a in args :: ArgName(a)) == (set a | a in init :: ArgName(a)) + {ArgName(args[|args| - 1])};
    }
  }

  /** The value of a key is that of the last token with that key. */
  lemma {:induction false} ArgsMapLastWins(args: seq<string>, i: nat)
    requires i < |args|
    requires forall j :: i < j < |args| ==> ArgName(args[j]) != ArgName(args[i])
    ensures ArgName(args[i]) in ArgsMap(args) && ArgsMap(args)[ArgName(args[i])] == ArgValue(args[i])
  {
    if i < |args| - 1 {
      var init := args[..|args| - 1];
      assert init[i] == args[i];
      ArgsMapLastWins(init, i);
    }
  }

  /** `parseArgs`: one pass over the tokens; each stores the text after `=` (one `=`) or
      `True` (any other count) under its key, and a stored empty text or `True` is then
      replaced by `'error'`. */
  method ParseArgs(args: seq<string>) returns (toret: map<string, Value>)
    ensures toret == ArgsMap(args)
  {
    toret := map[];
    for i := 0 to |args|
      invariant toret == ArgsMap(args[..i])
    {
      assert args[..i + 1][..i] == args[..i];
      var arg := args[i];
      var argSplit := Split(arg, '=');
      var name := RemoveDashes(argSplit[0]);
      if |argSplit| == 2 {
        toret := toret[name := Str(argSplit[1])];
      } else {
        toret := toret[name := Flag];
      }
      if toret[name] == Str("") || toret[name] == Flag {
        toret := toret[name := ErrorValue];
      }
    }
    assert args[..|args|] == args;
  }

  /** Removing `--` from `--name`, for a name without `-`, gives the name. */
  lemma DashedName(name: string)
    requires '-' !in name
    ensures RemoveDashes("--" + name) == name
  {
    assert ("--" + name)[2..] == name;
    RemoveDashesSpec(name);
    forall k | 0 <= k < |name| - 1 ensures !DashPair(name, k) {
      assert name[k] in name;
    }
  }

  /** The token `--name=value`, for a name without `-` or `=` and a value without `=`. */
  lemma TokenWithValue(token: string, name: string, v: string)
    requires token == "--" + name + "=" + v
    requires '-' !in name && '=' !in name && '=' !in v
    ensures ArgName(token) == name
    ensures ArgValue(token) == if v == "" then ErrorValue else Str(v)
  {
    assert token == ("--" + name) + "=" + v;
    ArgWithValue("--" + name, v);
    DashedName(name);
  }

  /** The token `--name`, for a name without `-` or `=`. */
  lemma TokenFlag(token: string, name: string)
    requires token == "--" + name
    requires '-' !in name && '=' !in name
    ensures ArgName(token) == name && ArgValue(token) == ErrorValue
  {
    ArgWithoutValue("--" + name);
    DashedName(name);
  }

  /** The module's first example: `['--test=a']` gives `{'test': 'a'}`. */
  lemma ParseArgsSingle()
    ensures ArgsMap(["--test=a"]) == map["test" := Str("a")]
  {
    TokenWithValue("--test=a", "test", "a");
    assert ["--test=a"][..0] == [];
  }

  /** From the module's last example: `--test1=` has an empty value, so it maps to
      `'error'`. */
  lemma ParseArgsEmptyValue()
    ensures ArgsMap(["--test1="]) == map["test1" := ErrorValue]
  {
    TokenWithValue("--test1=", "test1", "");
    assert ["--test1="][..0] == [];
  }

  /** From the module's examples: the flag `--testFlag` has no value, so it maps to
      `'error'`. */
  lemma ParseArgsFlag()
    ensures ArgsMap(["--testFlag"]) == map["testFlag" := ErrorValue]
  {
    TokenFlag("--testFlag", "testFlag");
    assert ["--testFlag"][..0] == [];
  }
}
