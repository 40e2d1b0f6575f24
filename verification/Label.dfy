// pkg/util/label.go, truncateLabelLength, over strings of bytes.
module Label {
  // validation.LabelValueMaxLength
  const MAX := 63

  // strings.LastIndex(s, "."), or -1.
  function LastDot(s: string): (i: int)
    ensures -1 <= i < |s|
    ensures i >= 0 ==> s[i] == '.'
    ensures forall k :: i < k < |s| ==> s[k] != '.'
  {
    if s == [] then -1 else if s[|s| - 1] == '.' then |s| - 1 else LastDot(s[..|s| - 1])
  }

  // Position k is the last dot that a label of at most MAX bytes can end before.
  ghost predicate CutsAt(s: string, k: nat) {
    k <= MAX && k < |s| && s[k] == '.' && forall j :: k < j <= MAX && j < |s| ==> s[j] != '.'
  }

  // An over-long input is cut to its longest prefix of at most MAX bytes that ends
  // just before a dot, and to its first MAX bytes when there is no such prefix.
  method TruncateLabelLength(inputURL: string) returns (r: string)
    ensures |inputURL| <= 63 <==> r == inputURL
    ensures |inputURL| > MAX ==> |r| <= MAX && r <= inputURL
    ensures |inputURL| > MAX && '.' in inputURL[..MAX + 1] ==> CutsAt(inputURL, |r|)
    ensures |inputURL| > MAX && '.' !in inputURL[..MAX + 1] ==> |r| == MAX
  {
    if |inputURL| <= MAX {
      return inputURL;
    }
    var url := inputURL;
    while true
      invariant MAX < |url| <= |inputURL| && url == inputURL[..|url|]
      invariant |url| < |inputURL| ==> inputURL[|url|] == '.'
      decreases |url|
    {
      var pos := LastDot(url);
      if pos == -1 {
        assert forall k :: 0 <= k <= MAX ==> inputURL[k] == url[k];
        return url[..MAX];
      }
      assert forall k :: 0 <= k < |url| ==> inputURL[k] == url[k];
      url := url[..pos];
      if |url| <= MAX {
        assert inputURL[..MAX + 1][pos] == '.';
        return url;
      }
    }
  }
}
