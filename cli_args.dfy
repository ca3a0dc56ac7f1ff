/** The pure helpers of the script that sets the Merkle root on the
    contract: the command-line parser (over an explicit argument list
    instead of `process.argv.slice(2)`), the bytes32 shape check applied
    to `--root`, and the clean-up of an allowlist read from JSON. */
module CliArgs {
  import opened Wrappers
  import opened JsStrings
  import opened JsValues
  import Merkle

  // ---------------------------------------------------------------------
  // parseCliArgs
  // ---------------------------------------------------------------------

  /** `a.startsWith('--')` */
  predicate IsOption(a: string) {
    |a| >= 2 && a[0] == '-' && a[1] == '-'
  }

  lemma IsOptionIff(a: string)
    ensures IsOption(a) <==> StartsWith(a, "--")
  {
    if IsOption(a) {
      assert a[..2] == "--";
    }
  }

  /** The first '=' of an option token is past its leading "--". */
  lemma EqualsAfterDashes(a: string)
    requires IsOption(a) && '=' in a
    ensures IndexOf(a, '=').value >= 2
  {
  }

  /** What one option token writes when no value token follows it:
      `--k=v` binds k to the text after the first '=', `--k` binds k to
      `true`. */
  function Bind(out: map<string, Value>, a: string): (r: map<string, Value>)
    requires IsOption(a)
  {
    match IndexOf(a, '=')
    case Some(eq) =>
      EqualsAfterDashes(a);
      out[a[2..eq] := Str(a[eq + 1..])]
    case None => out[a[2..] := Bool(true)]
  }

  /** The next token is taken as the value of a bare `--k`: it exists, is
      not empty and does not start with "--". */
  predicate TakesValue(args: seq<string>, i: nat) {
    i + 1 < |args| && args[i + 1] != [] && !IsOption(args[i + 1])
  }

  /** The dictionary the loop of `parseCliArgs` holds once it has read the
      tokens from position `i` on, starting from `out`. */
  function ParseFrom(args: seq<string>, i: nat, out: map<string, Value>): (r: map<string, Value>)
    requires i <= |args|
    ensures forall k :: k in out ==> k in r
    ensures (forall k :: k in out ==> '=' !in k) ==> forall k :: k in r ==> '=' !in k
    decreases |args| - i
  {
    if i == |args| then out
    else
      var a := args[i];
      if !IsOption(a) then ParseFrom(args, i + 1, out)
      else if '=' !in a && TakesValue(args, i) then
        ParseFrom(args, i + 2, out[a[2..] := Str(args[i + 1])])
      else ParseFrom(args, i + 1, Bind(out, a))
  }

  /** `parseCliArgs()` on the argument list `args`. */
  function Parse(args: seq<string>): (r: map<string, Value>)
    ensures forall k :: k in r ==> '=' !in k
  {
    ParseFrom(args, 0, map[])
  }

  /** The loop of `parseCliArgs`: a second `i++` skips a value token. */
  method ParseCliArgs(args: seq<string>) returns (out: map<string, Value>)
    ensures out == Parse(args)
  {
    out := map[];
    var i := 0;
    while i < |args|
      invariant i <= |args|
      invariant ParseFrom(args, i, out) == Parse(args)
      decreases |args| - i
    {
      var a := args[i];
      if IsOption(a) {
        var eq := IndexOf(a, '=');
        if eq.Some? {
          EqualsAfterDashes(a);
          var k := a[2..eq.value];
          var v := a[eq.value + 1..];
          out := out[k := Str(v)];
        } else {
          var k := a[2..];
          if i + 1 < |args| && args[i + 1] != [] && !IsOption(args[i + 1]) {
            out := out[k := Str(args[i + 1])];
            i := i + 1;
          } else {
            out := out[k := Bool(true)];
          }
        }
      }
      i := i + 1;
    }
  }

  /** The key an option token names: the text between "--" and the first
      '=', or all of it after "--". */
  function OptionKey(a: string): (k: string)
    requires IsOption(a)
    ensures |k| <= |a| - 2 && k == a[2..2 + |k|]
    ensures '=' !in k
  {
    match IndexOf(a, '=')
    case Some(eq) =>
      EqualsAfterDashes(a);
      a[2..eq]
    case None => a[2..]
  }

  /** Every key of the result is named by some option token: plain tokens,
      and values taken by a preceding `--k`, add no key. */
  lemma {:induction false} ParseFromKeys(args: seq<string>, i: nat, out: map<string, Value>, k: string)
    requires i <= |args|
    requires k in ParseFrom(args, i, out)
    ensures k in out || exists j :: i <= j < |args| && IsOption(args[j]) && OptionKey(args[j]) == k
    decreases |args| - i
  {
    if i < |args| {
      var a := args[i];
      if !IsOption(a) {
        ParseFromKeys(args, i + 1, out, k);
      } else if '=' !in a && TakesValue(args, i) {
        ParseFromKeys(args, i + 2, out[a[2..] := Str(args[i + 1])], k);
      } else {
        ParseFromKeys(args, i + 1, Bind(out, a), k);
      }
    }
  }

  lemma ParseKeys(args: seq<string>, k: string)
    requires k in Parse(args)
    ensures exists j :: 0 <= j < |args| && IsOption(args[j]) && OptionKey(args[j]) == k
  {
    ParseFromKeys(args, 0, map[], k);
  }

  /** Parsing `args + tail` from position `|args| + j` reads only `tail`. */
  lemma {:induction false} ParseFromShift(args: seq<string>, tail: seq<string>, j: nat, out: map<string, Value>)
    requires j <= |tail|
    ensures ParseFrom(args + tail, |args| + j, out) == ParseFrom(tail, j, out)
    decreases |tail| - j
  {
    var all := args + tail;
    if j < |tail| {
      assert all[|args| + j] == tail[j];
      if j + 1 < |tail| {
        assert all[|args| + j + 1] == tail[j + 1];
      }
      var a := tail[j];
      if !IsOption(a) {
        ParseFromShift(args, tail, j + 1, out);
      } else if '=' !in a && TakesValue(tail, j) {
        ParseFromShift(args, tail, j + 2, out[a[2..] := Str(tail[j + 1])]);
      } else {
        ParseFromShift(args, tail, j + 1, Bind(out, a));
      }
    }
  }

  /** A tail starting with an option token is parsed on its own: no token
      before it can take it as a value. */
  lemma {:induction false} ParseFromAppend(args: seq<string>, tail: seq<string>, i: nat, out: map<string, Value>)
    requires i <= |args|
    requires tail != [] && IsOption(tail[0])
    ensures ParseFrom(args + tail, i, out) == ParseFrom(tail, 0, ParseFrom(args, i, out))
    decreases |args| - i
  {
    var all := args + tail;
    if i == |args| {
      ParseFromShift(args, tail, 0, out);
    } else {
      var a := args[i];
      assert all[i] == a;
      if i + 1 < |args| {
        assert all[i + 1] == args[i + 1];
      } else {
        assert all[i + 1] == tail[0];
      }
      if !IsOption(a) {
        ParseFromAppend(args, tail, i + 1, out);
      } else if '=' !in a && TakesValue(args, i) {
        ParseFromAppend(args, tail, i + 2, out[a[2..] := Str(args[i + 1])]);
      } else {
        ParseFromAppend(args, tail, i + 1, Bind(out, a));
      }
    }
  }

  /** Parsing splits at any option token. */
  lemma ParseAppend(args: seq<string>, tail: seq<string>)
    requires tail != [] && IsOption(tail[0])
    ensures Parse(args + tail) == ParseFrom(tail, 0, Parse(args))
  {
    ParseFromAppend(args, tail, 0, map[]);
  }

  lemma IndexOfEquals(k: string, v: string)
    requires '=' !in k
    ensures IndexOf("--" + k + "=" + v, '=') == Some(2 + |k|)
  {
    var a := "--" + k + "=" + v;
    assert a[2 + |k|] == '=';
    forall j | 0 <= j < 2 + |k|
      ensures a[j] != '='
    {
      if j >= 2 {
        assert a[j] == k[j - 2];
      }
    }
  }

  /** A trailing `--k=v` binds k to v, whatever v holds (an '=' included),
      and overrides any earlier value of k. */
  lemma ParseAssignment(args: seq<string>, k: string, v: string)
    requires '=' !in k
    ensures Parse(args + ["--" + k + "=" + v]) == Parse(args)[k := Str(v)]
  {
    var a := "--" + k + "=" + v;
    ParseAppend(args, [a]);
    IndexOfEquals(k, v);
    assert a[2..2 + |k|] == k;
    assert a[2 + |k| + 1..] == v;
  }

  /** A trailing `--k` with nothing after it is the flag `true`. */
  lemma ParseFlag(args: seq<string>, k: string)
    requires '=' !in k
    ensures Parse(args + ["--" + k]) == Parse(args)[k := Bool(true)]
  {
    var a := "--" + k;
    ParseAppend(args, [a]);
    assert a[2..] == k;
  }

  /** `--k v` binds k to v when v is not empty and does not start with
      "--"; otherwise k is the flag `true` and v is read as a token of its
      own. */
  lemma ParseSeparateValue(args: seq<string>, k: string, v: string)
    requires '=' !in k
    ensures v != [] && !IsOption(v) ==> Parse(args + ["--" + k, v]) == Parse(args)[k := Str(v)]
    ensures v == [] ==> Parse(args + ["--" + k, v]) == Parse(args)[k := Bool(true)]
    ensures IsOption(v) ==> Parse(args + ["--" + k, v]) == ParseFrom([v], 0, Parse(args)[k := Bool(true)])
  {
    var a := "--" + k;
    var toks := [a, v];
    var m := Parse(args);
    ParseAppend(args, toks);
    assert a[2..] == k;
    assert '=' !in a by {
      forall j | 0 <= j < |a|
        ensures a[j] != '='
      {
        if j >= 2 {
          assert a[j] == k[j - 2];
        }
      }
    }
    if v != [] && !IsOption(v) {
      assert ParseFrom(toks, 0, m) == ParseFrom(toks, 2, m[k := Str(v)]);
    } else {
      var flagged := m[k := Bool(true)];
      assert ParseFrom(toks, 0, m) == ParseFrom(toks, 1, flagged);
      if v == [] {
        assert ParseFrom(toks, 1, flagged) == ParseFrom(toks, 2, flagged);
      } else {
        assert [a] + [v] == toks;
        ParseFromShift([a], [v], 0, flagged);
      }
    }
  }

  /** A trailing token that is not an option adds nothing, unless the
      option just before it takes it as its value. */
  lemma ParsePlainToken(args: seq<string>, t: string)
    requires !IsOption(t)
    requires args == [] || !IsOption(args[|args| - 1]) || '=' in args[|args| - 1] || t == []
    ensures Parse(args + [t]) == Parse(args)
  {
    ParsePlainTokenFrom(args, t, 0, map[]);
  }

  lemma {:induction false} ParsePlainTokenFrom(args: seq<string>, t: string, i: nat, out: map<string, Value>)
    requires i <= |args| && !IsOption(t)
    requires args == [] || !IsOption(args[|args| - 1]) || '=' in args[|args| - 1] || t == []
    ensures ParseFrom(args + [t], i, out) == ParseFrom(args, i, out)
    decreases |args| - i
  {
    var all := args + [t];
    if i < |args| {
      var a := args[i];
      assert all[i] == a;
      if i + 1 < |args| {
        assert all[i + 1] == args[i + 1];
      } else {
        assert all[i + 1] == t;
      }
      if !IsOption(a) {
        ParsePlainTokenFrom(args, t, i + 1, out);
      } else if '=' !in a && TakesValue(args, i) {
        ParsePlainTokenFrom(args, t, i + 2, out[a[2..] := Str(args[i + 1])]);
      } else {
        ParsePlainTokenFrom(args, t, i + 1, Bind(out, a));
      }
    }
  }

  // ---------------------------------------------------------------------
  // ensureHex32
  // ---------------------------------------------------------------------

  /** `ensureHex32(root)`: a string of 66 characters starting with "0x".
      The 64 characters after the prefix are not inspected. */
  function EnsureHex32(root: Value): (ok: bool)
    ensures ok ==> root.Str? && |root.s| == 66 && Merkle.HexPrefixed(root.s)
  {
    root.Str? && StartsWith(root.s, "0x") && |root.s| == 66
  }

  /** Every digest `ethers.keccak256` can return passes, and so does any
      other 66-character string behind "0x", hex or not. */
  lemma EnsureHex32Accepts(s: string)
    ensures EnsureHex32(Str(s)) <==> |s| == 66 && Merkle.HexPrefixed(s)
    ensures Merkle.IsDigest(s) ==> EnsureHex32(Str(s))
  {
    Merkle.HexPrefixedIff(s);
  }

  /** A 66-character "0x" string of non-hex characters is accepted. */
  lemma EnsureHex32NotHex()
    ensures var s := "0x" + seq(64, _ => 'z');
      EnsureHex32(Str(s)) && !Merkle.ValidHex(s)
  {
    var s := "0x" + seq(64, _ => 'z');
    EnsureHex32Accepts(s);
    assert !Merkle.IsHexDigit(s[2]);
  }

  /** Values that are not strings (a bare `--root` flag is `true`, an
      absent option is `undefined`) are refused. */
  lemma EnsureHex32NonString(v: Value)
    requires !v.Str?
    ensures !EnsureHex32(v)
  {
  }

  /** The root `getMerkleRoot` gives for two or more leaves is accepted;
      the "0x" of an empty list is not. */
  lemma EnsureHex32OfRoot(keccak: Merkle.Keccak, leaves: seq<string>, sortPairs: bool)
    requires Merkle.WellFormed(leaves)
    ensures |leaves| >= 2 ==> EnsureHex32(Str(Merkle.GetMerkleRoot(keccak, leaves, sortPairs)))
    ensures leaves == [] ==> !EnsureHex32(Str(Merkle.GetMerkleRoot(keccak, leaves, sortPairs)))
  {
    EnsureHex32Accepts(Merkle.GetMerkleRoot(keccak, leaves, sortPairs));
  }

  // ---------------------------------------------------------------------
  // normalizeAddresses
  // ---------------------------------------------------------------------

  /** The map step: strings trimmed, anything else the empty string. */
  function TrimmedOrEmpty(a: Value): string {
    if a.Str? then Trim(a.s) else ""
  }

  /** `arr.map(...).filter(Boolean)` */
  function NormalizeAddresses(arr: seq<Value>): (r: seq<string>)
    ensures |r| <= |arr|
    ensures forall i :: 0 <= i < |r| ==> r[i] != [] && IsTrimmed(r[i])
  {
    if arr == [] then []
    else
      var t := TrimmedOrEmpty(arr[0]);
      TrimIsTrimmed(if arr[0].Str? then arr[0].s else "");
      (if t != [] then [t] else []) + NormalizeAddresses(arr[1..])
  }

  /** The result keeps the input's order: normalising a concatenation is
      the concatenation of the two normalised halves. */
  lemma {:induction false} NormalizeAppend(a: seq<Value>, b: seq<Value>)
    ensures NormalizeAddresses(a + b) == NormalizeAddresses(a) + NormalizeAddresses(b)
  {
    if a != [] {
      assert (a + b)[0] == a[0];
      assert (a + b)[1..] == a[1..] + b;
      NormalizeAppend(a[1..], b);
    } else {
      assert a + b == b;
    }
  }

  /** An address is in the result exactly when some string of the input
      trims to it and it is not empty. */
  lemma {:induction false} NormalizeMembership(arr: seq<Value>, x: string)
    ensures x in NormalizeAddresses(arr) <==>
      x != [] && exists i :: 0 <= i < |arr| && arr[i].Str? && Trim(arr[i].s) == x
  {
    if arr != [] {
      NormalizeMembership(arr[1..], x);
      if x != [] && exists i :: 0 <= i < |arr| && arr[i].Str? && Trim(arr[i].s) == x {
        var i :| 0 <= i < |arr| && arr[i].Str? && Trim(arr[i].s) == x;
        if i > 0 {
          assert arr[1..][i - 1] == arr[i];
        }
      }
      if exists i :: 0 <= i < |arr[1..]| && arr[1..][i].Str? && Trim(arr[1..][i].s) == x {
        var i :| 0 <= i < |arr[1..]| && arr[1..][i].Str? && Trim(arr[1..][i].s) == x;
        assert arr[i + 1] == arr[1..][i];
      }
    }
  }

  /** Clean input (trimmed, non-empty strings) comes back unchanged. */
  lemma {:induction false} NormalizeClean(addrs: seq<string>)
    requires forall i :: 0 <= i < |addrs| ==> addrs[i] != [] && IsTrimmed(addrs[i])
    ensures NormalizeAddresses(seq(|addrs|, i requires 0 <= i < |addrs| => Str(addrs[i]))) == addrs
  {
    var arr := seq(|addrs|, i requires 0 <= i < |addrs| => Str(addrs[i]));
    if addrs != [] {
      TrimOfTrimmed(addrs[0]);
      assert arr[1..] == seq(|addrs[1..]|, i requires 0 <= i < |addrs[1..]| => Str(addrs[1..][i]));
      NormalizeClean(addrs[1..]);
    }
  }
}
