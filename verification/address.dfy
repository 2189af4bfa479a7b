/** `split_address`: `street_number` is what `^(\d+)` captures (absent when the
    address does not start with a digit) and `street_name` is the address with
    `^\d+\s*` removed. */
module Address {
  import opened Optional
  import opened Text

  predicate AllDigits(s: string) {
    forall i :: 0 <= i < |s| ==> IsDigit(s[i])
  }

  /** Length of the leading run of digits (the greedy `\d+`). */
  function DigitRun(s: string): (n: nat)
    ensures n <= |s| && AllDigits(s[..n])
    ensures n < |s| ==> !IsDigit(s[n])
    decreases |s|
  {
    if |s| > 0 && IsDigit(s[0]) then
      var m := DigitRun(s[1..]);
      assert s[..1 + m] == [s[0]] + s[1..][..m];
      1 + m
    else 0
  }

  datatype AddressParts = AddressParts(number: Option<string>, name: string)

  function SplitAddress(raw: string): (r: AddressParts)
    ensures r.number.None? <==> (|raw| == 0 || !IsDigit(raw[0]))
    ensures r.number.None? ==> r.name == raw
    ensures r.number.Some? ==>
      var d := r.number.value;
      && 0 < |d| && |d| + |r.name| <= |raw|
      && raw[..|d|] == d && AllDigits(d)
      && (|d| == |raw| || !IsDigit(raw[|d|]))
      && AllSpace(raw[|d|..|raw| - |r.name|])
      && raw[|raw| - |r.name|..] == r.name
      && (|r.name| > 0 ==> !IsSpace(r.name[0]))
  {
    var n := DigitRun(raw);
    if n == 0 then AddressParts(None, raw)
    else
      var name := TrimLeft(raw[n..]);
      var gap := raw[n..|raw| - |name|];
      assert AllSpace(gap) by {
        forall i | 0 <= i < |gap| ensures IsSpace(gap[i]) {
          assert gap[i] == raw[n..][i];
        }
      }
      AddressParts(Some(raw[..n]), name)
  }

  /** The inverse direction: a digit run, some whitespace and a name that does
      not start with whitespace or a digit-continuation split back into those
      parts. */
  lemma SplitAddressRecovers(d: string, gap: string, name: string)
    requires |d| > 0 && AllDigits(d)
    requires AllSpace(gap)
    requires |gap| > 0 || |name| == 0 || !IsDigit(name[0])
    requires |name| == 0 || !IsSpace(name[0])
    ensures SplitAddress(d + gap + name) == AddressParts(Some(d), name)
  {
    var raw := d + gap + name;
    assert raw == d + (gap + name);
    DigitRunOf(d, gap + name);
    assert raw[|d|..] == gap + name;
    TrimLeftOf(gap, name);
  }

  lemma {:induction false} DigitRunOf(d: string, rest: string)
    requires AllDigits(d)
    requires |rest| == 0 || !IsDigit(rest[0])
    ensures DigitRun(d + rest) == |d|
    decreases |d|
  {
    if |d| > 0 {
      assert (d + rest)[1..] == d[1..] + rest;
      DigitRunOf(d[1..], rest);
    } else {
      assert d + rest == rest;
    }
  }

  lemma {:induction false} TrimLeftOf(gap: string, name: string)
    requires AllSpace(gap)
    requires |name| == 0 || !IsSpace(name[0])
    ensures TrimLeft(gap + name) == name
    decreases |gap|
  {
    if |gap| > 0 {
      assert (gap + name)[1..] == gap[1..] + name;
      TrimLeftOf(gap[1..], name);
    } else {
      assert gap + name == name;
    }
  }

  lemma ExampleSplit()
    ensures SplitAddress("12 St Marys Ave Ave") == AddressParts(Some("12"), "St Marys Ave Ave")
  {
    var d, gap, name := "12", " ", "St Marys Ave Ave";
    assert AllDigits(d) && AllSpace(gap) && !IsSpace(name[0]) by {
      assert d[0] == '1' && d[1] == '2' && gap[0] == ' ' && name[0] == 'S';
    }
    assert d + gap + name == "12 St Marys Ave Ave";
    SplitAddressRecovers(d, gap, name);
  }

  lemma ExampleNoNumber()
    ensures SplitAddress("Main St") == AddressParts(None, "Main St")
  {
  }
}
