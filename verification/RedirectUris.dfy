/** The comma-separated list of redirect URIs a client may use. */
module RedirectUris {
  import opened Basics

  /** The list is compared through a 512-byte copy, terminator included. */
  const COPY_SIZE: nat := 512

  /** What `sso_strlcpy` leaves in a buffer of `size` bytes. */
  function Clipped(s: string, size: nat): (r: string)
    requires 0 < size
    ensures r <= s && |r| < size
    ensures |s| < size ==> r == s
  {
    if |s| < size then s else s[..size - 1]
  }

  // ------------------------------------------------------------------------- meaning

  /** `s[i..j]` is what stands between two neighbouring commas, or a comma and an end. */
  ghost predicate IsField(s: string, i: int, j: int) {
    && 0 <= i <= j <= |s|
    && (i == 0 || s[i - 1] == ',') && (j == |s| || s[j] == ',')
    && forall k :: i <= k < j ==> s[k] != ','
  }

  function TrimLeft(s: string): string {
    if s != "" && s[0] == ' ' then TrimLeft(s[1..]) else s
  }

  function TrimRight(s: string): string {
    if s != "" && s[|s| - 1] == ' ' then TrimRight(s[..|s| - 1]) else s
  }

  function Trim(s: string): string {
    TrimRight(TrimLeft(s))
  }

  /** Some field that is not empty reads `uri` once the spaces around it are gone. */
  ghost predicate Allowed(list: string, uri: string) {
    exists i, j :: IsField(list, i, j) && i < j && Trim(list[i..j]) == uri
  }

  // ------------------------------------------------------------------------ the loops

  /** The next token: leading commas skipped, then everything up to the next comma. */
  method NextToken(s: string, pos: nat) returns (start: nat, end: nat)
    requires pos <= |s| && (pos == 0 || s[pos - 1] == ',' || pos == |s|)
    ensures pos <= start <= end <= |s|
    ensures start == end ==> end == |s|
    ensures start < end ==> IsField(s, start, end)
    ensures forall k :: pos <= k < start ==> s[k] == ','
  {
    start := pos;
    while start < |s| && s[start] == ','
      invariant pos <= start <= |s| && (start == 0 || s[start - 1] == ',' || start == |s|)
      invariant forall k :: pos <= k < start ==> s[k] == ','
    {
      start := start + 1;
    }
    end := start;
    while end < |s| && s[end] != ','
      invariant start <= end <= |s| && forall k :: start <= k < end ==> s[k] != ','
    {
      end := end + 1;
    }
  }

  method TrimSpaces(s: string) returns (t: string)
    ensures t == Trim(s)
  {
    var from := 0;
    while from < |s| && s[from] == ' '
      invariant 0 <= from <= |s| && TrimLeft(s) == TrimLeft(s[from..])
    {
      assert s[from..][1..] == s[from + 1..];
      from := from + 1;
    }
    var tok := s[from..];
    var len := |tok|;
    assert tok[..len] == tok;
    while 0 < len && tok[len - 1] == ' '
      invariant 0 <= len <= |tok| && TrimRight(tok) == TrimRight(tok[..len])
    {
      assert tok[..len][..len - 1] == tok[..len - 1];
      len := len - 1;
    }
    t := tok[..len];
  }

  method IsAllowed(list: Option<string>, uri: string) returns (ok: bool)
    ensures ok <==> list.Some? && Allowed(Clipped(list.value, COPY_SIZE), uri)
  {
    if list.None? || list.value == "" { return false; }
    var s := Clipped(list.value, COPY_SIZE);
    var pos := 0;
    while true
      invariant 0 <= pos <= |s| && (pos == 0 || s[pos - 1] == ',' || pos == |s|)
      invariant forall i, j :: IsField(s, i, j) && i < j && i < pos ==> Trim(s[i..j]) != uri
      decreases |s| - pos
    {
      var start, end := NextToken(s, pos);
      if start == end {
        return false;
      }
      var tok := TrimSpaces(s[start..end]);
      if tok == uri { return true; }
      pos := if end < |s| then end + 1 else end;
    }
  }

  /** Trimming takes away exactly the spaces in front and behind. */
  lemma TrimMeans(s: string) returns (a: nat, b: nat)
    ensures a <= b <= |s| && Trim(s) == s[a..b]
    ensures forall k :: 0 <= k < a || b <= k < |s| ==> s[k] == ' '
    ensures a < b ==> s[a] != ' ' && s[b - 1] != ' '
  {
    a := TrimLeftMeans(s);
    var n := TrimRightMeans(s[a..]);
    b := a + n;
    assert s[a..][..n] == s[a..b];
    forall k | b <= k < |s| ensures s[k] == ' ' {
      assert s[k] == s[a..][k - a];
    }
  }

  lemma {:induction false} TrimLeftMeans(s: string) returns (n: nat)
    ensures n <= |s| && TrimLeft(s) == s[n..]
    ensures forall k :: 0 <= k < n ==> s[k] == ' '
    ensures n < |s| ==> s[n] != ' '
  {
    n := 0;
    if s != "" && s[0] == ' ' {
      var m := TrimLeftMeans(s[1..]);
      n := m + 1;
      forall k | 0 <= k < n ensures s[k] == ' ' {
        if 0 < k { assert s[k] == s[1..][k - 1]; }
      }
    }
  }

  lemma {:induction false} TrimRightMeans(s: string) returns (n: nat)
    ensures n <= |s| && TrimRight(s) == s[..n]
    ensures forall k :: n <= k < |s| ==> s[k] == ' '
    ensures 0 < n ==> s[n - 1] != ' '
  {
    n := |s|;
    if s != "" && s[|s| - 1] == ' ' {
      n := TrimRightMeans(s[..|s| - 1]);
    }
  }
}
