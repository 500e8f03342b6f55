/**
  The grouped passcode of genpasscode.py: `group_count` groups of
  `group_size` characters joined by a delimiter. The random character
  choices come in as indices into the alphabet.
*/
module GenPasscode {
  import opened Results
  import opened Strings

  /** The command line's alphabet, `string.ascii_uppercase + string.digits`. */
  const Chars: string := "ABCDEFGHIJKLMNOPQRSTUVWXYZ0123456789"

  /** `random.choice` on an empty sequence raises IndexError. */
  datatype PasscodeError = EmptyChars

  /** The alphabet is the 26 capital letters in order, then the 10 digits in order. */
  lemma CharsAlphabet()
    ensures |Chars| == 36
    ensures forall i | 0 <= i < 26 :: Chars[i] as int == 'A' as int + i
    ensures forall i | 26 <= i < 36 :: Chars[i] as int == '0' as int + (i - 26)
  {
  }

  /** `len(range(n))`: a count of zero or less runs no iteration. */
  function Iterations(n: int): nat
  {
    if n <= 0 then 0 else n
  }

  /**
    `gen_group(size, chars)`: one character per iteration of `range(size)`,
    the `i`-th being the one at index `picks[i]` of `chars`. With no
    character to choose from, a non-empty group cannot be made.
  */
  function GenGroup(size: int, chars: string, picks: seq<nat>): (r: Result<string, PasscodeError>)
    requires |picks| == Iterations(size)
    requires chars != [] ==> forall i | 0 <= i < |picks| :: picks[i] < |chars|
    ensures r.Err? <==> size > 0 && chars == []
    ensures r.Ok? ==>
      && |r.value| == Iterations(size)
      && forall i | 0 <= i < |picks| :: r.value[i] == chars[picks[i]]
    decreases Iterations(size)
  {
    if size <= 0 then Ok("")
    else if chars == [] then Err(EmptyChars)
    else
      var rest := GenGroup(size - 1, chars, picks[1..]);
      Ok([chars[picks[0]]] + rest.value)
  }

  /** Every character of a group comes from the alphabet. */
  lemma GenGroupDrawsFromChars(size: int, chars: string, picks: seq<nat>)
    requires |picks| == Iterations(size)
    requires chars != [] ==> forall i | 0 <= i < |picks| :: picks[i] < |chars|
    requires GenGroup(size, chars, picks).Ok?
    ensures forall i | 0 <= i < |picks| :: GenGroup(size, chars, picks).value[i] in chars
  {
  }

  /** The picks are well-formed for `count` groups of `size` characters drawn from `chars`. */
  predicate PicksFit(count: int, size: int, chars: string, picks: seq<seq<nat>>)
  {
    && |picks| == Iterations(count)
    && (forall g | 0 <= g < |picks| :: |picks[g]| == Iterations(size))
    && (chars != [] ==> forall g, i | 0 <= g < |picks| && 0 <= i < |picks[g]| :: picks[g][i] < |chars|)
  }

  /** The groups of the generator expression in `gen_code`, made in order. */
  function GenGroups(count: int, size: int, chars: string, picks: seq<seq<nat>>): (r: Result<seq<string>, PasscodeError>)
    requires PicksFit(count, size, chars, picks)
    ensures r.Err? <==> count > 0 && size > 0 && chars == []
    ensures r.Ok? ==>
      && |r.value| == Iterations(count)
      && forall g | 0 <= g < |r.value| :: GenGroup(size, chars, picks[g]) == Ok(r.value[g])
    decreases Iterations(count)
  {
    if count <= 0 then Ok([])
    else
      match GenGroup(size, chars, picks[0])
      case Err(e) => Err(e)
      case Ok(group) =>
        var rest := GenGroups(count - 1, size, chars, picks[1..]);
        Ok([group] + rest.value)
  }

  /**
    `gen_code(group_size, group_count, group_delimiter, chars)`: the groups
    joined by the delimiter. No groups (a count of zero or less) give the
    empty code; otherwise the code has `count` groups of `size` characters
    (none when `size` is zero or less) and a delimiter between each group
    and the next.
  */
  function GenCode(size: int, count: int, delimiter: string, chars: string, picks: seq<seq<nat>>)
    : (r: Result<string, PasscodeError>)
    requires PicksFit(count, size, chars, picks)
    ensures r.Err? <==> count > 0 && size > 0 && chars == []
    ensures count <= 0 ==> r == Ok("")
    ensures r.Ok? && count > 0 ==> |r.value| == count * Iterations(size) + (count - 1) * |delimiter|
  {
    match GenGroups(count, size, chars, picks)
    case Err(e) => Err(e)
    case Ok(groups) =>
      var code, w := Join(groups, delimiter), Iterations(size);
      assert count > 0 ==> |code| == count * w + (count - 1) * |delimiter| by {
        if count > 0 {
          assert forall g | 0 <= g < |groups| :: |groups[g]| == w by {
            forall g | 0 <= g < |groups| ensures |groups[g]| == w {
              assert GenGroup(size, chars, picks[g]) == Ok(groups[g]);
            }
          }
          JoinLength(groups, delimiter, w);
        }
      }
      Ok(code)
  }

  /**
    The layout of a code made from `picks`, groups `w` characters wide:
    group `g` occupies the `w` positions from `Offset(g, w, delimiter)`,
    which is `g * (w + |delimiter|)`, its `i`-th character being the pick
    `picks[g][i]`, and the delimiter follows every group but the last.
  */
  predicate LaidOut(code: string, w: nat, delimiter: string, chars: string, picks: seq<seq<nat>>)
  {
    PicksAt(code, w, delimiter, chars, picks) && DelimitersAt(code, w, delimiter, |picks|)
  }

  /** Character `i` of group `g` is the pick `picks[g][i]`. */
  predicate PicksAt(code: string, w: nat, delimiter: string, chars: string, picks: seq<seq<nat>>)
  {
    forall g, i | 0 <= g < |picks| && 0 <= i < w :: PickAt(code, w, delimiter, chars, picks, g, i)
  }

  /** Character `i` of group `g` is there and is the pick `picks[g][i]`. */
  predicate PickAt(code: string, w: nat, delimiter: string, chars: string, picks: seq<seq<nat>>, g: nat, i: nat)
    requires g < |picks|
  {
    && i < |picks[g]| && picks[g][i] < |chars|
    && Offset(g, w, delimiter) + i < |code|
    && code[Offset(g, w, delimiter) + i] == chars[picks[g][i]]
  }

  /** A whole delimiter follows each of the first `count - 1` groups. */
  predicate DelimitersAt(code: string, w: nat, delimiter: string, count: nat)
  {
    forall g | 0 <= g < count - 1 ::
      && Offset(g, w, delimiter) + w + |delimiter| <= |code|
      && code[Offset(g, w, delimiter) + w..Offset(g, w, delimiter) + w + |delimiter|] == delimiter
  }

  /** A code of one or more groups is laid out as its picks say, groups as wide as the group size (0 when that is zero or less). */
  lemma GenCodeLayout(size: int, count: int, delimiter: string, chars: string, picks: seq<seq<nat>>)
    requires PicksFit(count, size, chars, picks)
    requires count > 0 && GenCode(size, count, delimiter, chars, picks).Ok?
    ensures LaidOut(GenCode(size, count, delimiter, chars, picks).value, Iterations(size), delimiter, chars, picks)
  {
    var groups := GenGroups(count, size, chars, picks).value;
    var w := Iterations(size);
    assert GenCode(size, count, delimiter, chars, picks).value == Join(groups, delimiter);
    forall g | 0 <= g < |groups| ensures |groups[g]| == w {
      GroupOfPicks(size, chars, picks[g], groups[g]);
    }
    forall g, i | 0 <= g < |groups| && 0 <= i < w
      ensures i < |picks[g]| && picks[g][i] < |chars| && groups[g][i] == chars[picks[g][i]]
    {
      GroupOfPicks(size, chars, picks[g], groups[g]);
    }
    assert GroupsHoldPicks(groups, w, chars, picks);
    JoinedGroupsLayout(w, delimiter, chars, picks, groups);
  }

  /** Character `i` of group `g` is the pick `picks[g][i]`, for every group and every position below `w`. */
  predicate GroupsHoldPicks(groups: seq<string>, w: nat, chars: string, picks: seq<seq<nat>>)
    requires |groups| == |picks|
    requires forall g | 0 <= g < |groups| :: |groups[g]| == w
  {
    forall g, i | 0 <= g < |groups| && 0 <= i < w ::
      i < |picks[g]| && picks[g][i] < |chars| && groups[g][i] == chars[picks[g][i]]
  }

  /** GenCodeLayout, stated over the join of groups that hold their picks. */
  lemma JoinedGroupsLayout(w: nat, delimiter: string, chars: string, picks: seq<seq<nat>>, groups: seq<string>)
    requires |groups| == |picks|
    requires forall g | 0 <= g < |groups| :: |groups[g]| == w
    requires GroupsHoldPicks(groups, w, chars, picks)
    ensures LaidOut(Join(groups, delimiter), w, delimiter, chars, picks)
  {
    JoinedGroupsPicks(w, delimiter, chars, picks, groups);
    JoinedGroupsDelimiters(w, delimiter, groups);
  }

  /** The pick half of JoinedGroupsLayout. */
  lemma JoinedGroupsPicks(w: nat, delimiter: string, chars: string, picks: seq<seq<nat>>, groups: seq<string>)
    requires |groups| == |picks|
    requires forall g | 0 <= g < |groups| :: |groups[g]| == w
    requires GroupsHoldPicks(groups, w, chars, picks)
    ensures PicksAt(Join(groups, delimiter), w, delimiter, chars, picks)
  {
    var code := Join(groups, delimiter);
    forall g, i | 0 <= g < |picks| && 0 <= i < w ensures PickAt(code, w, delimiter, chars, picks, g, i) {
      JoinCharAt(groups, delimiter, w, g, i);
    }
    assert PicksAt(code, w, delimiter, chars, picks);
  }

  /** The delimiter half of JoinedGroupsLayout: it holds for any equally long parts. */
  lemma JoinedGroupsDelimiters(w: nat, delimiter: string, groups: seq<string>)
    requires forall g | 0 <= g < |groups| :: |groups[g]| == w
    ensures DelimitersAt(Join(groups, delimiter), w, delimiter, |groups|)
  {
    var code := Join(groups, delimiter);
    forall g | 0 <= g < |groups| - 1
      ensures && Offset(g, w, delimiter) + w + |delimiter| <= |code|
              && code[Offset(g, w, delimiter) + w..Offset(g, w, delimiter) + w + |delimiter|] == delimiter
    {
      JoinPartAt(groups, delimiter, w, g);
    }
  }

  /** One group of a code, character by character. */
  lemma GroupOfPicks(size: int, chars: string, picks: seq<nat>, group: string)
    requires |picks| == Iterations(size)
    requires chars != [] ==> forall i | 0 <= i < |picks| :: picks[i] < |chars|
    requires GenGroup(size, chars, picks) == Ok(group)
    ensures |group| == Iterations(size)
    ensures forall i | 0 <= i < Iterations(size) :: i < |picks| && picks[i] < |chars| && group[i] == chars[picks[i]]
  {
  }

  /**
    A group size of zero or less makes every group empty, so the code is
    the delimiter between `count` empty groups: `gen_code(-2, 3, '-', chars)`
    is "--".
  */
  lemma EmptyGroupsExample(size: int, delimiter: string)
    requires size == -2 && delimiter == "-"
    ensures var r := GenCode(size, 3, delimiter, Chars, [[], [], []]);
      r.Ok? && r.value == "--"
  {
    var picks: seq<seq<nat>> := [[], [], []];
    assert GenGroup(size, Chars, []) == Ok("");
    assert picks[1..] == [[], []] && picks[1..][1..] == [[]] && picks[1..][1..][1..] == [];
    var groups := GenGroups(3, size, Chars, picks).value;
    assert groups == ["", "", ""];
    assert GenCode(size, 3, delimiter, Chars, picks).value == Join(groups, delimiter);
    assert Join([""], delimiter) == "";
    JoinCons("", [""], delimiter);
    assert [""] + [""] == ["", ""];
    assert Join(["", ""], delimiter) == "-";
    JoinCons("", ["", ""], delimiter);
    assert [""] + ["", ""] == groups;
    assert Join(groups, delimiter) == "" + "-" + "-";
  }

  /**
    When no group can contain the delimiter's first character (in particular
    when no delimiter character is in the alphabet), splitting a code of one
    or more groups at the delimiter gives back exactly its `count` groups,
    each of the group size (0 for a size of zero or less).
  */
  lemma GenCodeSplits(size: int, count: int, delimiter: string, chars: string, picks: seq<seq<nat>>)
    requires PicksFit(count, size, chars, picks)
    requires count > 0 && delimiter != [] && delimiter[0] !in chars
    requires GenCode(size, count, delimiter, chars, picks).Ok?
    ensures var pieces := Split(GenCode(size, count, delimiter, chars, picks).value, delimiter);
      && pieces == GenGroups(count, size, chars, picks).value
      && |pieces| == count
      && forall g | 0 <= g < count :: |pieces[g]| == Iterations(size)
  {
    var groups := GenGroups(count, size, chars, picks).value;
    assert Separable(groups, delimiter) by {
      forall g, j | 0 <= g < |groups| && 0 <= j < |groups[g]| ensures groups[g][j] != delimiter[0] {
        assert GenGroup(size, chars, picks[g]) == Ok(groups[g]);
        GenGroupDrawsFromChars(size, chars, picks[g]);
      }
    }
    SplitJoin(groups, delimiter);
  }

  /**
    With the command line's alphabet and its default delimiter '-', a code
    of one or more groups never fails and always splits back into its groups.
  */
  lemma DefaultDelimiterSplits(size: int, count: int, picks: seq<seq<nat>>)
    requires PicksFit(count, size, Chars, picks)
    requires count > 0
    ensures GenCode(size, count, "-", Chars, picks).Ok?
    ensures |Split(GenCode(size, count, "-", Chars, picks).value, "-")| == count
  {
    assert '-' !in Chars;
    GenCodeSplits(size, count, "-", Chars, picks);
  }
}
