/** The identifier case conversions of the get-by-guid code generator
    (api/cloudcontroller/ccv2/codegen/gen_get_by_guid.go), restricted to
    ASCII: an uppercase character is one of 'A'..'Z' and lowering one adds 32
    to its code; every other character is left as it is.

    - `SnakeCase` ("AppInstance" to "app_instance"),
    - `ToDashes` ("AppInstance" to "app-instance"),
    - `ToVarName` ("AppInstance" to "appInstance").
 */
module CaseConversion {
  import opened Strings

  predicate IsUpper(c: char) {
    'A' <= c <= 'Z'
  }

  /** ASCII lowering: an uppercase letter becomes the matching lowercase
      letter, every other character is returned unchanged. */
  function ToLower(c: char): (r: char)
    ensures !IsUpper(r)
    ensures !IsUpper(c) ==> r == c
    ensures IsUpper(c) ==> 'a' <= r <= 'z' && r as int == c as int + 32
  {
    if IsUpper(c) then (c as int + 32) as char else c
  }

  predicate NoUpper(s: string) {
    forall i | 0 <= i < |s| :: !IsUpper(s[i])
  }

  /** Number of uppercase characters in `s`. */
  function UpperCount(s: string): nat {
    if |s| == 0 then 0 else (if IsUpper(s[0]) then 1 else 0) + UpperCount(s[1..])
  }

  /** Every character lowered, nothing inserted. */
  function Lowercase(s: string): (r: string)
    ensures |r| == |s| && NoUpper(r)
  {
    seq(|s|, i requires 0 <= i < |s| => ToLower(s[i]))
  }

  /** `s` with every occurrence of `c` deleted. */
  function Remove(s: string, c: char): (r: string)
    ensures c !in r
  {
    if |s| == 0 then "" else (if s[0] == c then "" else [s[0]]) + Remove(s[1..], c)
  }

  lemma {:induction false} RemoveAppend(a: string, b: string, c: char)
    ensures Remove(a + b, c) == Remove(a, c) + Remove(b, c)
  {
    if |a| > 0 {
      assert (a + b)[1..] == a[1..] + b;
      RemoveAppend(a[1..], b, c);
    } else {
      assert a + b == b;
    }
  }

  // ---------------------------------------------------------------------------
  // toSnakeCase
  // ---------------------------------------------------------------------------

  /** One character after the first: lowered, with '_' in front when it was
      uppercase. */
  function Piece(c: char): string {
    (if IsUpper(c) then "_" else "") + [ToLower(c)]
  }

  /** The conversion of every character after the first: each is lowered and
      an uppercase one is preceded by '_'. */
  function SnakeTail(t: string): (r: string)
    ensures |r| == |t| + UpperCount(t)
    ensures NoUpper(r)
  {
    if |t| == 0 then ""
    else Piece(t[0]) + SnakeTail(t[1..])
  }

  /** toSnakeCase: lowers every character and puts '_' in front of every
      uppercase character except the first one. */
  function SnakeCase(s: string): (r: string)
    ensures |s| == 0 ==> r == ""
    ensures |s| > 0 ==> |r| == |s| + UpperCount(s[1..]) && r[0] == ToLower(s[0])
    ensures NoUpper(r)
  {
    if |s| == 0 then "" else [ToLower(s[0])] + SnakeTail(s[1..])
  }

  /** Where each character of `t` lands in `SnakeTail(t)`: character `i` is
      shifted right by the number of uppercase characters up to and including
      it, and an uppercase one has '_' immediately in front of it. */
  lemma {:induction false} SnakeTailPositions(t: string, i: nat)
    requires i < |t|
    ensures 1 <= i + UpperCount(t[..i + 1]) + 1 <= |SnakeTail(t)|
    ensures SnakeTail(t)[i + UpperCount(t[..i + 1])] == ToLower(t[i])
    ensures IsUpper(t[i]) ==> UpperCount(t[..i + 1]) >= 1 && SnakeTail(t)[i + UpperCount(t[..i + 1]) - 1] == '_'
  {
    var head := Piece(t[0]);
    assert SnakeTail(t) == head + SnakeTail(t[1..]);
    assert t[..1][1..] == [];
    if i == 0 {
      assert UpperCount(t[..1]) == (if IsUpper(t[0]) then 1 else 0);
    } else {
      var t' := t[1..];
      SnakeTailPositions(t', i - 1);
      assert t[..i + 1][1..] == t'[..i];
      assert UpperCount(t[..i + 1]) == |head| - 1 + UpperCount(t'[..i]);
      UpperCountPrefix(t, i + 1);
    }
  }

  lemma {:induction false} UpperCountPrefix(t: string, n: nat)
    requires n <= |t|
    ensures UpperCount(t[..n]) <= UpperCount(t)
  {
    if n > 0 {
      assert t[..n][1..] == t[1..][..n - 1];
      UpperCountPrefix(t[1..], n - 1);
    }
  }

  /** toSnakeCase places every character of its input: the first at
      position 0, and character `i > 0` after all the '_' inserted before
      it, with its own '_' directly in front when it is uppercase. Together
      with the length in `SnakeCase`'s contract this fixes the output. */
  lemma SnakeCasePositions(s: string, i: nat)
    requires 0 < i < |s|
    ensures i + UpperCount(s[1..i + 1]) < |SnakeCase(s)|
    ensures SnakeCase(s)[i + UpperCount(s[1..i + 1])] == ToLower(s[i])
    ensures IsUpper(s[i]) ==> SnakeCase(s)[i + UpperCount(s[1..i + 1]) - 1] == '_'
  {
    var t := s[1..];
    SnakeTailPositions(t, i - 1);
    assert t[..i] == s[1..i + 1];
  }

  /** A string with no uppercase letter is left unchanged. */
  lemma {:induction false} SnakeTailIdentity(t: string)
    requires NoUpper(t)
    ensures SnakeTail(t) == t
  {
    if |t| > 0 {
      assert NoUpper(t[1..]);
      SnakeTailIdentity(t[1..]);
      assert t == [t[0]] + t[1..];
    }
  }

  lemma SnakeCaseIdentity(s: string)
    requires NoUpper(s)
    ensures SnakeCase(s) == s
  {
    if |s| > 0 {
      SnakeTailIdentity(s[1..]);
      assert s == [s[0]] + s[1..];
    }
  }

  /** Converting twice is converting once. */
  lemma SnakeCaseIdempotent(s: string)
    ensures SnakeCase(SnakeCase(s)) == SnakeCase(s)
  {
    SnakeCaseIdentity(SnakeCase(s));
  }

  lemma PieceWithoutUnderscore(c: char)
    requires c != '_'
    ensures Remove(Piece(c), '_') == [ToLower(c)]
  {
    var p := Piece(c);
    if IsUpper(c) {
      assert p[1..] == [ToLower(c)];
      assert [ToLower(c)][1..] == [];
      assert ToLower(c) != '_';
      assert Remove(p[1..], '_') == [ToLower(c)] + Remove([], '_');
      assert Remove(p, '_') == Remove(p[1..], '_');
    } else {
      assert p == [c];
      assert p[1..] == [];
    }
  }

  lemma {:induction false} SnakeTailWithoutUnderscores(t: string)
    requires '_' !in t
    ensures Remove(SnakeTail(t), '_') == Lowercase(t)
  {
    if |t| > 0 {
      assert SnakeTail(t) == Piece(t[0]) + SnakeTail(t[1..]);
      RemoveAppend(Piece(t[0]), SnakeTail(t[1..]), '_');
      PieceWithoutUnderscore(t[0]);
      SnakeTailWithoutUnderscores(t[1..]);
      assert Lowercase(t) == [ToLower(t[0])] + Lowercase(t[1..]);
    }
  }

  /** The only characters toSnakeCase inserts are underscores: deleting them
      from the output of a name that had none gives the plain lowercase
      name back. */
  lemma SnakeCaseWithoutUnderscores(s: string)
    requires '_' !in s
    ensures Remove(SnakeCase(s), '_') == Lowercase(s)
  {
    if |s| > 0 {
      var t := s[1..];
      SnakeTailWithoutUnderscores(t);
      RemoveAppend([ToLower(s[0])], SnakeTail(t), '_');
      assert Remove([ToLower(s[0])], '_') == [ToLower(s[0])] by {
        assert s[0] != '_';
        assert [ToLower(s[0])][1..] == [];
      }
      assert Lowercase(s) == [ToLower(s[0])] + Lowercase(t);
    }
  }

  // ---------------------------------------------------------------------------
  // toDashes
  // ---------------------------------------------------------------------------

  /** toDashes: the snake-case form with every '_' turned into '-',
      including underscores that were already in the input. */
  function ToDashes(s: string): (r: string)
    ensures |r| == |SnakeCase(s)|
    ensures '_' !in r
    ensures NoUpper(r)
    ensures forall i | 0 <= i < |r| :: SnakeCase(s)[i] != '_' ==> r[i] == SnakeCase(s)[i]
    ensures forall i | 0 <= i < |r| :: SnakeCase(s)[i] == '_' ==> r[i] == '-'
  {
    var snake := SnakeCase(s);
    ReplaceAllRemoves(snake, '_', '-');
    ReplaceAll(snake, '_', '-')
  }

  lemma {:induction false} SnakeTailAvoidsDash(t: string)
    requires '-' !in t
    ensures '-' !in SnakeTail(t)
  {
    if |t| > 0 {
      SnakeTailAvoidsDash(t[1..]);
      assert t[0] != '-';
      assert SnakeTail(t) == Piece(t[0]) + SnakeTail(t[1..]);
    }
  }

  /** For a name without dashes, turning the dashes of toDashes back into
      underscores gives exactly toSnakeCase: the two outputs differ only in
      that one character. */
  lemma DashesToSnakeCase(s: string)
    requires '-' !in s
    ensures ReplaceAll(ToDashes(s), '-', '_') == SnakeCase(s)
  {
    if |s| > 0 {
      SnakeTailAvoidsDash(s[1..]);
      assert s[0] != '-';
      assert '-' !in SnakeCase(s);
    }
    ReplaceAllInverse(SnakeCase(s), '_', '-');
  }

  // ---------------------------------------------------------------------------
  // toVarName
  // ---------------------------------------------------------------------------

  /** toVarName: lowers the first character only. The input must be non-empty
      (the source indexes its first byte). */
  function ToVarName(s: string): (r: string)
    requires |s| > 0
    ensures |r| == |s|
    ensures r[0] == ToLower(s[0]) && !IsUpper(r[0])
    ensures r[1..] == s[1..]
  {
    [ToLower(s[0])] + s[1..]
  }

  /** toVarName changes a name exactly when it starts with an uppercase letter. */
  lemma VarNameFixedPoints(s: string)
    requires |s| > 0
    ensures ToVarName(s) == s <==> !IsUpper(s[0])
  {
  }

  lemma VarNameIdempotent(s: string)
    requires |s| > 0
    ensures ToVarName(ToVarName(s)) == ToVarName(s)
  {
  }

  /** toVarName and toSnakeCase agree on the first character, and agree
      entirely on a name whose only uppercase letter (if any) is its first. */
  lemma VarNameAgreesWithSnakeCase(s: string)
    requires |s| > 0
    ensures ToVarName(s)[0] == SnakeCase(s)[0]
    ensures NoUpper(s[1..]) ==> ToVarName(s) == SnakeCase(s)
  {
    if NoUpper(s[1..]) {
      SnakeTailIdentity(s[1..]);
    }
  }
}
