/** The reverse lookup behind preview-to-editor sync: `findLocation` climbs
    from a clicked element towards the root and returns the source location
    of the nearest element whose `data-line` ends in `[path:]digits`. The
    `data-line` values met on the way, from the element up to but not
    including the root, are given as a sequence. */
module Location {
  import opened Wrappers
  import opened JsNumber

  /** The two capture groups of `/(?:^|;)(?:([^:;]+):)?(\d+)$/`: the path
      (undefined when the optional group did not take part) and the digits. */
  datatype Capture = Capture(path: Option<string>, digits: string)

  /** A source location: the path, when the attribute names one, and the
      line. */
  datatype Loc = Loc(path: Option<string>, line: int)

  predicate NotPathDelim(c: char)
  {
    c != ':' && c != ';'
  }

  /** The length of the greedy `[^:;]+` run at the start of `t`. */
  function PathRun(t: string): (k: nat)
    ensures k <= |t|
    ensures forall i :: 0 <= i < k ==> NotPathDelim(t[i])
    ensures k < |t| ==> !NotPathDelim(t[k])
    decreases |t|
  {
    if t == [] || !NotPathDelim(t[0]) then 0 else 1 + PathRun(t[1..])
  }

  /** The part of the pattern after the alternation, `(?:([^:;]+):)?(\d+)$`,
      matched against the whole of `t`. The greedy group can only give back
      characters that are not `:`, so the one way it can be followed by `:`
      is with its full run; when that fails the group is skipped. */
  function MatchTail(t: string): (r: Option<Capture>)
    ensures r.Some? ==> |r.value.digits| >= 1 && AllDigits(r.value.digits)
  {
    var k := PathRun(t);
    if 1 <= k && k + 1 < |t| && t[k] == ':' && AllDigits(t[k + 1..]) then Some(Capture(Some(t[..k]), t[k + 1..]))
    else if |t| >= 1 && AllDigits(t) then Some(Capture(None, t))
    else None
  }

  /** A match attempt starting at `p`: first the `^` alternative, which only
      holds at 0, then the `;` alternative. */
  function MatchAt(s: string, p: nat): Option<Capture>
    requires p <= |s|
  {
    var viaStart := if p == 0 then MatchTail(s) else None;
    if viaStart.Some? then viaStart
    else if p < |s| && s[p] == ';' then MatchTail(s[p + 1..])
    else None
  }

  /** The outcome of the match attempt at every start position of `s`,
      from 0 to `|s|`. */
  function Attempts(s: string): (a: seq<Option<Capture>>)
    ensures |a| == |s| + 1
    ensures forall p :: 0 <= p <= |s| ==> a[p] == MatchAt(s, p)
  {
    seq(|s| + 1, p requires 0 <= p <= |s| => MatchAt(s, p))
  }

  /** The leftmost successful attempt at or after position `p`. */
  function FirstMatch(a: seq<Option<Capture>>, p: nat): Option<Capture>
    decreases |a| - p
  {
    if p >= |a| then None
    else if a[p].Some? then a[p]
    else FirstMatch(a, p + 1)
  }

  /** `/(?:^|;)(?:([^:;]+):)?(\d+)$/.exec(s)`: the leftmost start at which a
      match attempt succeeds. */
  function Exec(s: string): Option<Capture>
  {
    FirstMatch(Attempts(s), 0)
  }

  /** Where the last `;`-separated segment of `s` starts. */
  function LastSegmentStart(s: string): (p: nat)
    ensures p <= |s|
    ensures p > 0 ==> s[p - 1] == ';'
    ensures forall k :: p <= k < |s| ==> s[k] != ';'
    decreases |s|
  {
    if s == [] then 0
    else if s[|s| - 1] == ';' then |s|
    else LastSegmentStart(s[..|s| - 1])
  }

  function LastSegment(s: string): string
  {
    s[LastSegmentStart(s)..]
  }

  /** What the attribute `dl` of one element on the way up yields: a
      location when it is present and non-empty, its last `;`-segment is
      `path:digits` or `digits`, and the digits do not read as 0. */
  function LocationOf(dl: Option<string>): (r: Option<Loc>)
    ensures r.Some? ==> r.value.line >= 1
  {
    match dl
    case None => None
    case Some(s) =>
      if s == [] then None
      else match MatchTail(LastSegment(s))
        case None => None
        case Some(cap) =>
          var line := DecimalValue(cap.digits);
          if line == 0 then None else Some(Loc(cap.path, line))
  }

  /** One step of the walk as the source takes it: the attribute is present
      and non-empty, `exec` matches, and `parseInt` of the digits is a
      non-zero number, exactly when the attribute yields a location, which
      is then made of the path captured and that number. */
  lemma LocationStep(dl: Option<string>)
    ensures LocationOf(dl).Some? <==>
      && dl.Some? && dl.value != [] && Exec(dl.value).Some?
      && ParseInt(Exec(dl.value).value.digits).Some? && ParseInt(Exec(dl.value).value.digits).value != 0
    ensures LocationOf(dl).Some? ==>
      LocationOf(dl) == Some(Loc(Exec(dl.value).value.path, ParseInt(Exec(dl.value).value.digits).value))
  {
    if dl.Some? && dl.value != [] {
      ExecIsLastSegment(dl.value);
      if Exec(dl.value).Some? {
        DigitsParse(Exec(dl.value).value);
      }
    }
  }

  /** What a successful match of the tail captures: a non-empty path
      without `:` or `;`, or none, and a non-empty digit string; together
      with the `:` in between they make up the whole text. */
  lemma MatchTailShape(t: string)
    requires MatchTail(t).Some?
    ensures var cap := MatchTail(t).value;
      && |cap.digits| >= 1 && AllDigits(cap.digits)
      && (cap.path.None? ==> t == cap.digits)
      && (cap.path.Some? ==> |cap.path.value| >= 1
                             && (forall i :: 0 <= i < |cap.path.value| ==> NotPathDelim(cap.path.value[i]))
                             && t == cap.path.value + ":" + cap.digits)
  {
    var k := PathRun(t);
    if 1 <= k && k + 1 < |t| && t[k] == ':' && AllDigits(t[k + 1..]) {
      assert t == t[..k] + ":" + t[k + 1..];
    }
  }

  /** The digits captured read as their decimal value. */
  lemma DigitsParse(cap: Capture)
    requires |cap.digits| >= 1 && AllDigits(cap.digits)
    ensures ParseInt(cap.digits) == Some(DecimalValue(cap.digits) as int)
  {
    ParseIntDigitPrefix(cap.digits, "");
    assert cap.digits + "" == cap.digits;
  }

  /** A text the tail matches holds no `;`. */
  lemma MatchTailHasNoSemicolon(t: string, i: int)
    requires MatchTail(t).Some? && 0 <= i < |t|
    ensures t[i] != ';'
  {
    var k := PathRun(t);
    if 1 <= k && k + 1 < |t| && t[k] == ':' && AllDigits(t[k + 1..]) {
      if i > k { assert t[k + 1..][i - k - 1] == t[i]; }
    }
  }

  /** The tail of `s` from `p` on does not match when a `;` follows. */
  lemma NoMatchBeforeSemicolon(s: string, p: nat, q: nat)
    requires p <= q < |s| && s[q] == ';'
    ensures MatchTail(s[p..]).None?
  {
    if MatchTail(s[p..]).Some? {
      MatchTailHasNoSemicolon(s[p..], q - p);
      assert false;
    }
  }

  /** No attempt at a position `p >= 1` succeeds when no `;` remains from
      there on. */
  lemma NoAttemptAfterLastSemicolon(s: string, p: nat)
    requires 1 <= p <= |s|
    requires forall k :: p <= k < |s| ==> s[k] != ';'
    ensures MatchAt(s, p) == None
  {
  }

  /** An attempt before a `;` fails. */
  lemma NoAttemptBeforeSemicolon(s: string, p: nat, q: nat)
    requires p < q < |s| && s[q] == ';'
    ensures MatchAt(s, p) == None
  {
    if p == 0 {
      NoMatchBeforeSemicolon(s, 0, q);
      assert s[0..] == s;
    }
    if s[p] == ';' {
      NoMatchBeforeSemicolon(s, p + 1, q);
    }
  }

  /** Failed attempts from `p` up to `q` move the search on to `q`. */
  lemma {:induction false} SkipFailedAttempts(a: seq<Option<Capture>>, p: nat, q: nat)
    requires p <= q <= |a|
    requires forall j :: p <= j < q ==> a[j].None?
    ensures FirstMatch(a, p) == FirstMatch(a, q)
    decreases q - p
  {
    if p < q {
      SkipFailedAttempts(a, p + 1, q);
    }
  }

  /** The regular expression matches `s` exactly as the tail matches the
      last `;`-separated segment of `s`, with the same captures. */
  lemma ExecIsLastSegment(s: string)
    ensures Exec(s) == MatchTail(LastSegment(s))
  {
    var a := Attempts(s);
    var q := LastSegmentStart(s);
    var r := if q == 0 then 1 else q;
    forall j | r <= j <= |s| ensures a[j].None? {
      NoAttemptAfterLastSemicolon(s, j);
    }
    SkipFailedAttempts(a, r, |a|);
    if q == 0 {
      assert LastSegment(s) == s;
      assert a[0] == MatchTail(s);
    } else {
      forall j | 0 <= j < q - 1 ensures a[j].None? {
        NoAttemptBeforeSemicolon(s, j, q - 1);
      }
      SkipFailedAttempts(a, 0, q - 1);
      if q - 1 == 0 {
        NoMatchBeforeSemicolon(s, 0, 0);
      }
      assert a[q - 1] == MatchTail(LastSegment(s));
    }
  }

  /** `findLocation(root, elem)`, given the `data-line` attributes from
      `elem` up to but not including `root`: the location of the nearest
      element on the way that yields one, `None` when none does. */
  method FindLocation(chain: seq<Option<string>>) returns (r: Option<Loc>)
    ensures r.None? <==> forall k :: 0 <= k < |chain| ==> LocationOf(chain[k]).None?
    ensures r.Some? ==> exists k :: 0 <= k < |chain| && r == LocationOf(chain[k])
                                   && forall j :: 0 <= j < k ==> LocationOf(chain[j]).None?
  {
    var i := 0;
    while i < |chain|
      invariant 0 <= i <= |chain|
      invariant forall j :: 0 <= j < i ==> LocationOf(chain[j]).None?
    {
      var dataline := chain[i];
      LocationStep(dataline);
      if dataline.Some? && dataline.value != [] {
        var cap := Exec(dataline.value);
        if cap.Some? {
          var line := ParseInt(cap.value.digits);
          if line.Some? && line.value != 0 {
            return Some(Loc(cap.value.path, line.value));
          }
        }
      }
      i := i + 1;
    }
    return None;
  }

  /** The tail matches `path:digits` with both captures. */
  lemma MatchTailOfPathLine(path: string, d: string)
    requires |path| >= 1 && forall i :: 0 <= i < |path| ==> NotPathDelim(path[i])
    requires |d| >= 1 && AllDigits(d)
    ensures MatchTail(path + ":" + d) == Some(Capture(Some(path), d))
  {
    var t := path + ":" + d;
    assert t == path + (":" + d);
    PathRunOf(path, ":" + d);
    assert t[|path| + 1..] == d;
    assert t[..|path|] == path;
  }

  /** A `data-line` whose last segment is `path:` and the numeral of a
      non-zero `n` yields that path and line, whatever precedes it. */
  lemma LocationOfPathLine(prefix: string, path: string, n: nat)
    requires n >= 1 && |path| >= 1
    requires forall i :: 0 <= i < |path| ==> NotPathDelim(path[i])
    ensures LocationOf(Some(prefix + ";" + path + ":" + NatToDecimal(n))) == Some(Loc(Some(path), n))
  {
    var d := NatToDecimal(n);
    var s := prefix + ";" + path + ":" + d;
    var t := path + ":" + d;
    DecimalRoundTrip(n);
    assert s == (prefix + ";") + t;
    forall i | 0 <= i < |t| ensures t[i] != ';' {
      if i > |path| { assert t[i] == d[i - |path| - 1]; }
    }
    TailSegment(prefix + ";", t);
    MatchTailOfPathLine(path, d);
  }

  /** A `data-line` that is the numeral of a non-zero `n` yields line `n`
      and no path. */
  lemma LocationOfLine(n: nat)
    requires n >= 1
    ensures LocationOf(Some(NatToDecimal(n))) == Some(Loc(None, n))
  {
    DecimalRoundTrip(n);
    LocationOfDigits(NatToDecimal(n));
  }

  lemma LocationOfDigits(d: string)
    requires |d| >= 1 && AllDigits(d) && DecimalValue(d) >= 1
    ensures LocationOf(Some(d)) == Some(Loc(None, DecimalValue(d)))
  {
    assert forall i :: 0 <= i < |d| ==> d[i] != ';';
    NoSemicolonIsLastSegment(d);
    MatchTailOfDigits(d);
    LocationOfSegment(d, Capture(None, d));
  }

  /** A non-empty attribute whose last segment matches with non-zero digits
      yields the captured path and the value of the digits. */
  lemma LocationOfSegment(s: string, cap: Capture)
    requires s != [] && MatchTail(LastSegment(s)) == Some(cap) && DecimalValue(cap.digits) >= 1
    ensures LocationOf(Some(s)) == Some(Loc(cap.path, DecimalValue(cap.digits)))
  {
  }

  /** The tail matches a digit string without a path. */
  lemma MatchTailOfDigits(d: string)
    requires |d| >= 1 && AllDigits(d)
    ensures MatchTail(d) == Some(Capture(None, d))
  {
  }

  /** Any attribute whose last segment matches with digits reading as 0
      (`0`, `00`, `path:0`, after any earlier segments) yields nothing, so
      the walk goes on upwards. */
  lemma LocationOfZeroLine(s: string, cap: Capture)
    requires MatchTail(LastSegment(s)) == Some(cap) && DecimalValue(cap.digits) == 0
    ensures LocationOf(Some(s)) == None
  {
  }

  /** The attribute `prefix;0` is such an attribute. */
  lemma LocationOfZeroAfterSemicolon(prefix: string)
    ensures LocationOf(Some(prefix + ";0")) == None
  {
    var s := prefix + ";0";
    assert s == (prefix + ";") + "0";
    TailSegment(prefix + ";", "0");
  }

  lemma PathRunOf(path: string, rest: string)
    requires forall i :: 0 <= i < |path| ==> NotPathDelim(path[i])
    requires rest != [] && !NotPathDelim(rest[0])
    ensures PathRun(path + rest) == |path|
    decreases |path|
  {
    if path == [] {
      assert path + rest == rest;
    } else {
      assert (path + rest)[1..] == path[1..] + rest;
      PathRunOf(path[1..], rest);
    }
  }

  /** The last segment of `prefix + t`, where `prefix` ends in `;` and `t`
      has no `;`, is `t`. */
  lemma TailSegment(prefix: string, t: string)
    requires |prefix| >= 1 && prefix[|prefix| - 1] == ';'
    requires forall i :: 0 <= i < |t| ==> t[i] != ';'
    ensures LastSegment(prefix + t) == t
  {
    var s := prefix + t;
    assert s[|prefix| - 1] == ';';
    assert forall k :: |prefix| <= k < |s| ==> s[k] == t[k - |prefix|];
    assert LastSegmentStart(s) == |prefix|;
    assert s[|prefix|..] == t;
  }

  lemma NoSemicolonIsLastSegment(s: string)
    requires forall i :: 0 <= i < |s| ==> s[i] != ';'
    ensures LastSegment(s) == s
  {
    assert LastSegmentStart(s) == 0;
  }
}
