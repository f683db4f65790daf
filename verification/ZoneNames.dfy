/** What is accepted as the name of a new zone. */
module ZoneNames {
  import opened Names
  import opened CaseFolding

  /** The octets of a code point in UTF-8. */
  function Octets(c: char): nat {
    if c as int < 0x80 then 1 else if c as int < 0x800 then 2 else if c as int < 0x1_0000 then 3 else 4
  }

  function ByteLength(s: string): nat {
    if s == "" then 0 else Octets(s[0]) + ByteLength(s[1..])
  }

  lemma AsciiLength(s: string)
    requires forall i :: 0 <= i < |s| ==> s[i] as int < 128
    ensures ByteLength(s) == |s|
  {
  }

  /** A label of ASCII characters may have 1 to 63 letters, digits and inner hyphens. */
  lemma LabelLength(piece: string, alphanumeric: char -> bool)
    requires forall i :: 0 <= i < |piece| ==> piece[i] as int < 128 && alphanumeric(piece[i]) && piece[i] != '-'
    ensures ValidZoneLabel(piece, alphanumeric) <==> 1 <= |piece| <= 63
  {
    AsciiLength(piece);
  }

  /** What is accepted as the name of a zone; alphanumeric is the library's test for letters and digits. */
  predicate ValidZoneName(raw: string, alphanumeric: char -> bool) {
    var zone := TrimSuffix(TrimSpace(raw), ".");
    var labels := SplitDots(zone);
    && zone != "" && '/' !in zone && '\\' !in zone
    && forall i :: 0 <= i < |labels| ==> ValidZoneLabel(labels[i], alphanumeric)
  }

  predicate ValidZoneLabel(piece: string, alphanumeric: char -> bool) {
    && piece != "" && ByteLength(piece) <= 63 && piece[0] != '-' && piece[|piece| - 1] != '-'
    && forall i :: 0 <= i < |piece| ==> piece[i] == '-' || alphanumeric(piece[i])
  }

  method ValidateZoneName(raw: string, alphanumeric: char -> bool) returns (ok: bool)
    ensures ok == ValidZoneName(raw, alphanumeric)
  {
    hide SplitDots, TrimSpace, TrimSuffix, ValidZoneLabel;
    var zone := TrimSuffix(TrimSpace(raw), ".");
    if zone == "" || '/' in zone || '\\' in zone {
      return false;
    }
    var labels := SplitDots(zone);
    for i := 0 to |labels|
      invariant forall j :: 0 <= j < i ==> ValidZoneLabel(labels[j], alphanumeric)
    {
      if !ValidZoneLabel(labels[i], alphanumeric) {
        return false;
      }
    }
    return true;
  }

  /** A valid name cannot lead out of the directory of zone files: there is no slash of either kind in it. */
  lemma ValidNameHasNoSlash(raw: string, alphanumeric: char -> bool)
    requires ValidZoneName(raw, alphanumeric)
    ensures '/' !in raw && '\\' !in raw
  {
    hide SplitDots, TrimSpace, ValidZoneLabel;
    var i, j := TrimSpaceCuts(raw);
    var t := TrimSpace(raw);
    assert t == TrimSuffix(t, ".") || t == TrimSuffix(t, ".") + ".";
    forall k | 0 <= k < |raw| ensures raw[k] != '/' && raw[k] != '\\' {
      if i <= k < j {
        assert t[k - i] == raw[k];
      }
    }
  }

  /** A valid name is not the root, so its zone file always has a path. */
  lemma ValidNameIsNotRoot(raw: string, alphanumeric: char -> bool)
    requires ValidZoneName(raw, alphanumeric)
    ensures NormalizeName(raw) != "."
  {
    hide SplitDots, TrimSpace;
    var t := TrimSpace(raw);
    assert t != "" && t != "." && |Lower(t)| == |t|;
    if |t| == 1 {
      assert Lower(t)[0] == LowerChar(t[0]) && t[0] != '.';
    }
  }
}
