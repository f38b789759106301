/** The mbed download page: besides the helpers it shares with the dfu-util page
    (`hex4`, the interface summary with "Found " in front, the functional
    descriptor decode), it reads the vendor ID to look for from the query
    string of its URL. */
module MbedDownloadPage {
  import opened JsText

  /** A match of `/[&?]vid=(0x[0-9a-fA-F]{1,4})/` that starts at index `i`. */
  predicate VidMatchAt(q: string, i: nat) {
    && i + 8 <= |q|
    && (q[i] == '&' || q[i] == '?')
    && q[i + 1] == 'v' && q[i + 2] == 'i' && q[i + 3] == 'd' && q[i + 4] == '='
    && q[i + 5] == '0' && q[i + 6] == 'x'
    && IsHexDigit(q[i + 7])
  }

  /** Where the capture group of the match at `i` ends: `{1,4}` is greedy, so
      the run of hexadecimal digits after `0x`, cut at four. */
  function CaptureEnd(q: string, i: nat): (e: nat)
    requires VidMatchAt(q, i)
    ensures i + 8 <= e <= i + 11 && e <= |q|
    ensures AllHex(q[i + 7..e])
    ensures e < i + 11 && e < |q| ==> !IsHexDigit(q[e])
  {
    var run := HexRunEnd(q, i + 7);
    var e := if run < i + 11 then run else i + 11;
    assert AllHex(q[i + 7..e]) by {
      forall k | i + 7 <= k < e ensures IsHexDigit(q[k]) {
        assert q[k] == q[i + 7..run][k - (i + 7)];
      }
    }
    e
  }

  /** The leftmost match at or after `i`; `|q|` when there is none. */
  function FirstVidMatch(q: string, i: nat): (k: nat)
    requires i <= |q|
    ensures i <= k <= |q|
    ensures forall j :: i <= j < k ==> !VidMatchAt(q, j)
    ensures k < |q| ==> VidMatchAt(q, k)
    decreases |q| - i
  {
    if i == |q| then |q| else if VidMatchAt(q, i) then i else FirstVidMatch(q, i + 1)
  }

  /** `getVidFromQueryString`: the capture of the leftmost match, or "" when
      the query string has none. The capture is `0x` and one to four
      hexadecimal digits, and stops early only where the digits do. */
  function GetVidFromQueryString(queryString: string): (vid: string)
    ensures vid == "" <==> forall i :: 0 <= i < |queryString| ==> !VidMatchAt(queryString, i)
    ensures vid != "" ==>
              var k := FirstVidMatch(queryString, 0);
              && VidMatchAt(queryString, k)
              && (forall j :: 0 <= j < k ==> !VidMatchAt(queryString, j))
              && vid == queryString[k + 5..CaptureEnd(queryString, k)]
    ensures vid != "" ==>
              && 3 <= |vid| <= 6 && vid[0] == '0' && vid[1] == 'x' && AllHex(vid[2..])
              && (|vid| < 6 ==> var k := FirstVidMatch(queryString, 0);
                                k + 5 + |vid| == |queryString| || !IsHexDigit(queryString[k + 5 + |vid|]))
  {
    var k := FirstVidMatch(queryString, 0);
    if k == |queryString| then ""
    else
      var vid := queryString[k + 5..CaptureEnd(queryString, k)];
      assert vid[2..] == queryString[k + 7..CaptureEnd(queryString, k)];
      vid
  }
}
