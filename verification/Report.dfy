/** Numbers as a report prints them: digits in groups of three. */
module Report {
  import opened Text

  /** The digits of `s`, less its commas. */
  function WithoutCommas(s: string): string {
    if s == [] then []
    else WithoutCommas(s[..|s| - 1]) + (if s[|s| - 1] == ',' then [] else [s[|s| - 1]])
  }

  lemma NothingWithout()
    ensures WithoutCommas([]) == []
  {}

  lemma OneCharacterMore(s: string, c: char)
    ensures WithoutCommas(s + [c]) == WithoutCommas(s) + (if c == ',' then [] else [c])
  {
    assert (s + [c])[..|s|] == s;
  }

  /** Taking the commas out gives the digits back, and so the number; and the commas stand just where they
      should, whichever way they were pushed. */
  method Grouped(number: nat) returns (grouped: string)
    ensures WithoutCommas(grouped) == Show(number)
    ensures Read(WithoutCommas(grouped)) == number
    ensures forall i | 0 <= i < |grouped| :: grouped[i] == ',' || IsDigit(grouped[i])
    // Counted from the right, every fourth place is a comma, and the first place is none.
    ensures Placed(grouped, 0)
    ensures grouped != [] && grouped[0] != ','
  {
    hide Placed, StillToCome, WithoutCommas, Show, Read;
    NothingWithout();
    var digits := Show(number);
    var n := |digits|;
    grouped := [];
    for at := 0 to n
      invariant at == 0 ==> grouped == []
      invariant at > 0 ==> grouped != [] && grouped[0] != ','
      invariant WithoutCommas(grouped) == digits[..at]
      invariant forall i | 0 <= i < |grouped| :: grouped[i] == ',' || IsDigit(grouped[i])
      // What's still to come is a digit for each left, and a comma ahead of each third of them.
      invariant at > 0 ==> Placed(grouped, StillToCome(n - at))
    {
      assert digits[..at + 1] == digits[..at] + [digits[at]];
      assert digits[at] in digits && IsDigit(digits[at]);
      OneStep(n - at);
      Empty(WithoutCommas(grouped));
      NothingPlaced(StillToCome(n - at - 1) + 1);
      if at > 0 && (n - at) % 3 == 0 {
        OneCharacterMore(grouped, ',');
        OneMorePlaced(grouped, ',', StillToCome(n - at - 1) + 1);
        grouped := grouped + [','];
      }
      OneCharacterMore(grouped, digits[at]);
      OneMorePlaced(grouped, digits[at], StillToCome(n - at - 1));
      grouped := grouped + [digits[at]];
    }
    assert digits[..n] == digits;
    ReadShow(number);
    assert StillToCome(0) == 0 by { NothingToCome(); }
  }

  /** With `tail` places still to come, the commas so far stand at every fourth place from the right. */
  ghost predicate Placed(s: string, tail: nat) {
    forall i | 0 <= i < |s| :: s[i] == ',' <==> (|s| + tail - i) % 4 == 0
  }

  lemma NothingPlaced(tail: nat)
    ensures Placed([], tail)
  {}

  lemma OneMorePlaced(s: string, c: char, tail: nat)
    requires Placed(s, tail + 1) && (c == ',' <==> (tail + 1) % 4 == 0)
    ensures Placed(s + [c], tail)
  {}

  lemma NothingToCome()
    ensures StillToCome(0) == 0
  {}

  /** The places `left` more digits take, the commas ahead of them included. */
  ghost function StillToCome(left: nat): nat { left + left / 3 }

  lemma OneStep(left: nat)
    requires left > 0
    ensures StillToCome(left) == StillToCome(left - 1) + 1 + (if left % 3 == 0 then 1 else 0)
    ensures left % 3 == 0 ==> StillToCome(left) % 4 == 0
    ensures StillToCome(left - 1) % 4 != 3
  {
    var q, r := (left - 1) / 3, (left - 1) % 3;
    var carry := if r == 2 then 1 else 0;
    ByThrees(left - 1, q, r);
    ByThrees(left, q + carry, if r == 2 then 0 else r + 1);
    ByFours(q, r);
    ByFours(q + carry, if r == 2 then 0 else r + 1);
  }

  lemma ByThrees(n: nat, q: nat, r: nat)
    requires n == 3 * q + r && r < 3
    ensures n / 3 == q && n % 3 == r
  {}

  lemma ByFours(q: nat, r: nat)
    requires r < 4
    ensures (4 * q + r) % 4 == r
  {}
}
