/** The proof text of the "Vote With ZK Proof" form: `handleProofSubmit`
    trims it and removes one pair of surrounding double quotes with the
    regular expression `^"(.*)"$`, whose `.` does not match a line
    terminator. */
module ProofInput {
  import opened Outcomes
  import opened Text
  import opened HexFormat

  /** The regular expression matches: a quote at both ends and no line
      terminator in between. */
  predicate IsQuoted(t: string) {
    && |t| >= 2 && t[0] == '"' && t[|t| - 1] == '"'
    && forall k :: 1 <= k < |t| - 1 ==> !IsLineTerminator(t[k])
  }

  predicate NoLineTerminator(s: string) {
    forall k :: 0 <= k < |s| ==> !IsLineTerminator(s[k])
  }

  /** The text between the quotes of a quoted string. */
  function Unquote(t: string): (r: string)
    requires IsQuoted(t)
    ensures |r| == |t| - 2 && NoLineTerminator(r)
    ensures t == ['"'] + r + ['"']
  {
    var r := t[1..|t| - 1];
    assert forall k :: 0 <= k < |r| ==> r[k] == t[k + 1];
    assert t == ['"'] + r + ['"'] by {
      assert forall k :: 0 <= k < |t| ==> t[k] == (['"'] + r + ['"'])[k];
    }
    r
  }

  /** `proofA.trim().replace(/^"(.*)"$/, '$1')`. */
  function CleanProof(text: string): (r: string)
    ensures |Trim(text)| - 2 <= |r| <= |Trim(text)|
    ensures r != Trim(text) ==> NoLineTerminator(r) && IsQuoted(Trim(text))
    ensures r != Trim(text) ==> Trim(text) == ['"'] + r + ['"']
    ensures IsQuoted(Trim(text)) ==> |r| == |Trim(text)| - 2
  {
    var t := Trim(text);
    if IsQuoted(t) then Unquote(t) else t
  }

  /** Quoting a one-line text and unquoting it gives the text back. */
  lemma UnquoteQuoted(p: string)
    requires NoLineTerminator(p)
    ensures IsQuoted(['"'] + p + ['"'])
    ensures Unquote(['"'] + p + ['"']) == p
  {
    var q := ['"'] + p + ['"'];
    assert forall k :: 1 <= k < |q| - 1 ==> q[k] == p[k - 1];
    var r := Unquote(q);
    assert forall k :: 0 <= k < |r| ==> r[k] == q[k + 1] == p[k];
  }

  /** A quoted text on one line, with any padding, loses the padding and
      its quotes, and nothing else. */
  lemma CleanQuoted(a: string, p: string, b: string)
    requires AllTrimmable(a) && AllTrimmable(b)
    requires NoLineTerminator(p)
    ensures CleanProof(a + (['"'] + p + ['"']) + b) == p
  {
    var q := ['"'] + p + ['"'];
    UnquoteQuoted(p);
    assert IsTrimmed(q) by {
      assert q[0] == '"' && q[|q| - 1] == '"';
      assert !IsTrimmable('"');
    }
    TrimOfPadded(a, q, b);
  }

  /** Text that is not quoted on one line only loses its padding; in
      particular quotes around a multi-line text stay. */
  lemma CleanUnquoted(a: string, p: string, b: string)
    requires AllTrimmable(a) && AllTrimmable(b)
    requires IsTrimmed(p) && !IsQuoted(p)
    ensures CleanProof(a + p + b) == p
  {
    TrimOfPadded(a, p, b);
  }

  /** Only one pair of quotes is removed, so cleaning twice can differ from
      cleaning once. */
  lemma CleanNotIdempotent()
    ensures CleanProof("\"\"x\"\"") == "\"x\""
    ensures CleanProof(CleanProof("\"\"x\"\"")) == "x"
  {
    var t := "\"x\"";
    assert "\"\"x\"\"" == [] + (['"'] + t + ['"']) + [];
    CleanQuoted([], t, []);
    assert t == [] + (['"'] + "x" + ['"']) + [];
    CleanQuoted([], "x", []);
  }

  /** A quote pair around a line break is not removed. */
  lemma CleanKeepsMultilineQuotes()
    ensures CleanProof("\"a\nb\"") == "\"a\nb\""
  {
    var s := "\"a\nb\"";
    assert !IsQuoted(s) by {
      assert IsLineTerminator(s[2]);
    }
    assert s == [] + s + [];
    CleanUnquoted([], s, []);
  }

  /** The hex string printed by the formatter script, pasted into the form
      bare or in the double quotes of a JSON string and with any padding,
      cleans back to itself and decodes to the original bytes. */
  lemma PastedProofRoundTrip(bs: seq<byte>, a: string, b: string, quoted: bool)
    requires AllTrimmable(a) && AllTrimmable(b)
    ensures var h := FormatProof(bs);
      var pasted := a + (if quoted then ['"'] + h + ['"'] else h) + b;
      CleanProof(pasted) == h && DecodeHex(CleanProof(pasted)) == Some(bs)
  {
    var h := FormatProof(bs);
    FormatProofShape(bs);
    assert h[0] == '0' && h[1] == 'x' by {
      assert h[..2] == "0x";
    }
    assert NoLineTerminator(h) by {
      forall k | 0 <= k < |h| ensures !IsLineTerminator(h[k]) {
        if k >= 2 {
          assert IsHexDigit(h[k]);
        } else {
          assert h[k] == "0x"[k];
        }
      }
    }
    if quoted {
      CleanQuoted(a, h, b);
    } else {
      assert !IsTrimmable(h[|h| - 1]) by {
        if |h| > 2 {
          assert IsHexDigit(h[|h| - 1]);
        }
      }
      CleanUnquoted(a, h, b);
    }
    RoundTrip(bs, h);
  }
}
