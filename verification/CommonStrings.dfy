/** The string loops of common.cpp that the parsers call. */
module CommonStrings {
  import opened Wrappers
  import opened Text

  /** `string_strip` */
  method StripText(str: string) returns (r: string)
    ensures r == Strip(str)
  {
    var start, end := 0, |str|;
    while start < end && IsSpace(str[start])
      invariant 0 <= start <= end == |str|
      invariant SkipSpaces(str, start) == SkipSpaces(str, 0)
    {
      start := start + 1;
    }
    while end > start && IsSpace(str[end - 1])
      invariant start <= end <= |str|
      invariant TrimEnd(str, start, end) == TrimEnd(str, start, |str|)
    {
      end := end - 1;
    }
    return str[start..end];
  }

  /** `string_find_partial_stop`: the loop runs from the longest beginning of `stop` to the shortest,
      so what it returns is the start of the longest tail that is one. */
  method FindPartialStop(str: string, stop: string) returns (r: Option<nat>)
    ensures r == PartialStop(str, stop)
  {
    PartialIsFirst(str, stop, 0);
    if str != "" && stop != "" {
      var textLastChar := str[|str| - 1];
      var charIndex := |stop| - 1;
      while charIndex >= 0
        invariant -1 <= charIndex < |stop|
        invariant forall i: nat | i < |str| && charIndex < |str| - i - 1 :: !PartialAt(str, stop, i)
      {
        ghost var start := |str| - charIndex - 1;
        assert 0 <= start && str[start..] == stop[..charIndex + 1] ==> str[start..][charIndex] == stop[charIndex];
        if stop[charIndex] == textLastChar {
          var currentPartial := stop[..charIndex + 1];
          if |currentPartial| <= |str| && str[|str| - |currentPartial|..] == currentPartial {
            assert PartialAt(str, stop, start);
            return Some(|str| - charIndex - 1);
          }
        }
        charIndex := charIndex - 1;
      }
    }
    return None;
  }
}
