/** The zip code of a green roof: `re.search('(\d+)', postcode).group(1)` on
    the postcode string the reverse geocoder returns. The geocoder itself is
    not modelled; its reply is the input. */
module Postcode {
  import opened Wrappers
  import opened Text

  /** `re.search` found nothing, so `.group` fails and the run aborts. */
  datatype PostcodeError = NoDigits

  /** `s[i..j]` is the leftmost maximal non-empty run of digits of `s`. */
  predicate IsFirstDigitRun(s: string, i: int, j: int)
  {
    0 <= i < j <= |s|
    && (forall k :: i <= k < j ==> IsDigit(s[k]))
    && (forall k :: 0 <= k < i ==> !IsDigit(s[k]))
    && (j == |s| || !IsDigit(s[j]))
  }

  /** The position of the first digit at or after `i`, if any. */
  function FirstDigitFrom(s: string, i: nat): (r: Option<nat>)
    requires i <= |s|
    ensures r.Some? ==> i <= r.value < |s| && IsDigit(s[r.value])
    ensures r.Some? ==> forall k :: i <= k < r.value ==> !IsDigit(s[k])
    ensures r.None? ==> forall k :: i <= k < |s| ==> !IsDigit(s[k])
    decreases |s| - i
  {
    if i == |s| then None
    else if IsDigit(s[i]) then Some(i)
    else FirstDigitFrom(s, i + 1)
  }

  /** Where the run of digits starting at `i` ends: the greedy `\d+`. */
  function RunEnd(s: string, i: nat): (j: nat)
    requires i <= |s|
    ensures i <= j <= |s|
    ensures forall k :: i <= k < j ==> IsDigit(s[k])
    ensures j == |s| || !IsDigit(s[j])
    decreases |s| - i
  {
    if i < |s| && IsDigit(s[i]) then RunEnd(s, i + 1) else i
  }

  /** The zip code of a postcode string: its first run of digits, or an
      error when it holds no digit. */
  function ExtractZip(s: string): (r: Result<string, PostcodeError>)
    ensures r.Err? <==> !HasDigit(s)
    ensures r.Ok? ==> exists i, j :: IsFirstDigitRun(s, i, j) && r.value == s[i..j]
  {
    match FirstDigitFrom(s, 0)
    case None => Err(NoDigits)
    case Some(i) =>
      var j := RunEnd(s, i);
      assert IsFirstDigitRun(s, i, j);
      Ok(s[i..j])
  }

  /** There is only one first digit run. */
  lemma FirstDigitRunUnique(s: string, i: int, j: int, i': int, j': int)
    requires IsFirstDigitRun(s, i, j) && IsFirstDigitRun(s, i', j')
    ensures i == i' && j == j'
  {
    // each run starts with a digit, which no position before the other run's start holds
    assert IsDigit(s[i]) && IsDigit(s[i']);
    // each run ends at the string's end or at a non-digit, which the other run cannot contain
    assert j < |s| ==> !IsDigit(s[j]);
    assert j' < |s| ==> !IsDigit(s[j']);
  }

  /** Whatever precedes the first digit and whatever follows its run is
      dropped: `"IL 60614-1234"` yields `"60614"`. */
  lemma ExtractZipOfParts(before: string, digits: string, after: string)
    requires !HasDigit(before)
    requires |digits| >= 1 && AllDigits(digits)
    requires |after| == 0 || !IsDigit(after[0])
    ensures ExtractZip(before + digits + after) == Ok(digits)
  {
    var s := before + digits + after;
    var i, j := |before|, |before| + |digits|;
    assert IsFirstDigitRun(s, i, j) by {
      forall k | 0 <= k < i ensures !IsDigit(s[k]) {
        assert s[k] == before[k];
      }
      forall k | i <= k < j ensures IsDigit(s[k]) {
        assert s[k] == digits[k - i];
      }
      if j < |s| {
        assert s[j] == after[0];
      }
    }
    assert IsDigit(s[i]);
    var r := ExtractZip(s);
    var i', j' :| IsFirstDigitRun(s, i', j') && r.value == s[i'..j'];
    FirstDigitRunUnique(s, i, j, i', j');
    assert s[i..j] == digits;
  }
}
