/**
 * `extract_command_parts` (utils.py): split a command line into a fixed
 * number of pieces and reject it unless every piece holds something other
 * than whitespace.
 */
module Utils {
  import opened PyStr

  datatype Option<+T> = None | Some(value: T)

  /**
   * `command.split(' ', expected_parts - 1)`, kept only when it gives exactly
   * `expected_parts` pieces and each piece is non-empty once stripped (a piece
   * strips to nothing exactly when it is blank, see StripEmptyIffBlank). The
   * pieces are returned unstripped.
   */
  function ExtractCommandParts(command: string, expectedParts: int): (r: Option<seq<string>>)
    ensures r.Some? ==> |r.value| == expectedParts
  {
    var parts := Split(command, expectedParts - 1);
    if |parts| != expectedParts || !(forall k :: 0 <= k < |parts| ==> !IsBlank(parts[k])) then None
    else Some(parts)
  }

  /**
   * The shape of a successful result: `n` pieces, none blank, and none but
   * the last holding a space.
   */
  predicate CommandParts(parts: seq<string>, n: int)
  {
    && |parts| == n
    && (forall k :: 0 <= k < |parts| ==> !IsBlank(parts[k]))
    && (forall k :: 0 <= k < |parts| - 1 ==> ' ' !in parts[k])
  }

  /**
   * On success the result has exactly `expectedParts` well-formed pieces, and
   * joining them with one space reproduces the command character for character.
   */
  lemma {:induction false} ExtractSound(command: string, expectedParts: int)
    ensures ExtractCommandParts(command, expectedParts).Some? ==>
              var parts := ExtractCommandParts(command, expectedParts).value;
              CommandParts(parts, expectedParts) && Join(" ", parts) == command
  {
    var parts := Split(command, expectedParts - 1);
    if ExtractCommandParts(command, expectedParts).Some? {
      forall k | 0 <= k < |parts| ensures !IsBlank(parts[k]) {
        StripEmptyIffBlank(parts[k]);
      }
      SplitPieces(command, expectedParts - 1);
      JoinSplit(command, expectedParts - 1);
    }
  }

  /**
   * Conversely, any well-formed list of pieces is exactly what is extracted
   * from its own space-join: together with ExtractSound this characterises
   * the accepted commands without reference to `split`.
   */
  lemma {:induction false} ExtractComplete(parts: seq<string>)
    requires |parts| >= 1 && CommandParts(parts, |parts|)
    ensures ExtractCommandParts(Join(" ", parts), |parts|) == Some(parts)
  {
    SplitJoin(parts);
    forall k | 0 <= k < |parts| ensures Strip(parts[k]) != [] {
      StripEmptyIffBlank(parts[k]);
    }
  }

  /** A command is rejected whenever one of its split pieces is blank. */
  lemma ExtractRejectsBlankPiece(command: string, expectedParts: int, k: int)
    requires 0 <= k < |Split(command, expectedParts - 1)|
    requires IsBlank(Split(command, expectedParts - 1)[k])
    ensures ExtractCommandParts(command, expectedParts) == None
  {
    StripEmptyIffBlank(Split(command, expectedParts - 1)[k]);
  }

  /**
   * A command word with no argument after it is rejected wherever an argument
   * is expected (`-listarusrgrupo` alone, say).
   */
  lemma ExtractRejectsMissingArgument(command: string, expectedParts: int)
    requires ' ' !in command && expectedParts >= 2
    ensures ExtractCommandParts(command, expectedParts) == None
  {
    SplitNoSpace(command, expectedParts - 1);
  }

  /** Without a space in `s`, a split yields `s` alone. */
  lemma {:induction false} SplitNoSpace(s: string, maxsplit: int)
    requires ' ' !in s
    ensures Split(s, maxsplit) == [s]
    decreases |s|
  {
    if s != [] {
      assert ' ' !in s[1..] by {
        forall i | 0 <= i < |s[1..]| ensures s[1..][i] != ' ' { assert s[1..][i] == s[i + 1]; }
      }
      SplitNoSpace(s[1..], maxsplit);
      assert [s[0]] + s[1..] == s;
    }
  }
}
