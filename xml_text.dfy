/** The two rewrites applied to the serialised document before it is
    written out: every `\` marker becomes the character reference `&#xA;`
    (a line feed for whoever reads the file), and every ` />` loses its
    space, so that `<tag k="a" v="b" />` is written `<tag k="a" v="b"/>`. */
module XmlText {
  import opened Wrapping

  /** The character reference for a line feed that replaces each marker. */
  const Entity: string := "&#xA;"

  /** The end of an empty element as the serialiser writes it. */
  const SpacedClose: string := " />"

  predicate StartsWith(s: string, p: string)
  {
    |p| <= |s| && s[..|p|] == p
  }

  /** `p` occurs somewhere in `s`. */
  predicate Contains(s: string, p: string)
  {
    exists i :: 0 <= i <= |s| && StartsWith(s[i..], p)
  }

  /** Number of occurrences of the character `c` in `s`. */
  function Count(s: string, c: char): nat
  {
    if s == [] then 0 else (if s[0] == c then 1 else 0) + Count(s[1..], c)
  }

  // ---------------------------------------------------------------------
  // Marker expansion

  /** `xml_string.replace("\\", "&#xA;")`: each marker becomes the five
      characters of the entity and every other character is copied. */
  function EscapeMarkers(s: string): (r: string)
    ensures Marker !in r
    ensures |r| == |s| + 4 * Count(s, Marker)
  {
    if s == [] then []
    else (if s[0] == Marker then Entity else [s[0]]) + EscapeMarkers(s[1..])
  }

  /** Reads the escaped text back: every entity, scanned from the left,
      becomes a marker again. */
  function UnescapeMarkers(r: string): string
  {
    if r == [] then []
    else if StartsWith(r, Entity) then [Marker] + UnescapeMarkers(r[|Entity|..])
    else [r[0]] + UnescapeMarkers(r[1..])
  }

  /** Text without a marker is left alone. */
  lemma {:induction false} EscapeWithoutMarkers(s: string)
    requires Marker !in s
    ensures EscapeMarkers(s) == s
  {
    if s != [] {
      assert s == [s[0]] + s[1..];
      EscapeWithoutMarkers(s[1..]);
    }
  }

  /** Expansion only puts an `&` where a marker was, so a prefix free of `&`
      and of markers survives it exactly when it was there before. */
  lemma {:induction false} EscapeKeepsPrefix(t: string, p: string)
    requires '&' !in p && Marker !in p
    ensures StartsWith(EscapeMarkers(t), p) <==> StartsWith(t, p)
  {
    if p != [] && t != [] {
      var e := EscapeMarkers(t);
      assert e == (if t[0] == Marker then Entity else [t[0]]) + EscapeMarkers(t[1..]);
      assert p == [p[0]] + p[1..];
      if t[0] == Marker {
        assert e[0] == '&';
        assert !StartsWith(t, p) by { assert t[0] != p[0]; }
      } else {
        EscapeKeepsPrefix(t[1..], p[1..]);
        assert StartsWith(e, p) <==> e[0] == p[0] && StartsWith(e[1..], p[1..]);
        assert StartsWith(t, p) <==> t[0] == p[0] && StartsWith(t[1..], p[1..]);
      }
    }
  }

  lemma ContainsTail(s: string, p: string)
    requires s != [] && !Contains(s, p)
    ensures !StartsWith(s, p) && !Contains(s[1..], p)
  {
    assert s[0..] == s;
    forall i | 0 <= i <= |s[1..]|
      ensures !StartsWith(s[1..][i..], p)
    {
      assert s[1..][i..] == s[i + 1..];
    }
  }

  /** Expanding the markers is undone by reading the entities back, for
      every text that does not already contain the entity (the serialiser
      writes a literal `&` as `&amp;`, so its output never does). */
  lemma {:induction false} UnescapeEscape(s: string)
    requires !Contains(s, Entity)
    ensures UnescapeMarkers(EscapeMarkers(s)) == s
  {
    if s != [] {
      ContainsTail(s, Entity);
      UnescapeEscape(s[1..]);
      var rest := EscapeMarkers(s[1..]);
      if s[0] == Marker {
        assert EscapeMarkers(s) == Entity + rest;
        assert (Entity + rest)[|Entity|..] == rest;
      } else {
        var e := [s[0]] + rest;
        assert EscapeMarkers(s) == e;
        assert !StartsWith(e, Entity) by {
          if s[0] == '&' {
            assert e[1..] == rest && Entity == [Entity[0]] + Entity[1..];
            EscapeKeepsPrefix(s[1..], Entity[1..]);
            assert StartsWith(e, Entity) <==> StartsWith(rest, Entity[1..]);
            assert StartsWith(s, Entity) <==> StartsWith(s[1..], Entity[1..]);
          }
        }
        assert e[1..] == rest;
      }
      assert s == [s[0]] + s[1..];
    }
  }

  // ---------------------------------------------------------------------
  // Self-closing tags

  /** `re.sub(" />", "/>", xml_string)`: the pattern has no special
      characters, and its matches are replaced from the left without
      overlapping. */
  function CollapseSelfClosing(s: string): (r: string)
    ensures |r| <= |s|
  {
    if s == [] then []
    else if StartsWith(s, SpacedClose) then "/>" + CollapseSelfClosing(s[3..])
    else [s[0]] + CollapseSelfClosing(s[1..])
  }

  /** Reference definition: delete every space that is followed by `/>`. */
  function DropSpaceBeforeClose(s: string): string
  {
    if s == [] then []
    else if StartsWith(s, SpacedClose) then DropSpaceBeforeClose(s[1..])
    else [s[0]] + DropSpaceBeforeClose(s[1..])
  }

  /** Number of positions at which ` />` starts. */
  function Occurrences(s: string): nat
  {
    if s == [] then 0
    else (if StartsWith(s, SpacedClose) then 1 else 0) + Occurrences(s[1..])
  }

  /** The substitution removes exactly the space of every ` />`, wherever it
      is: matches of ` />` cannot overlap, so scanning from the left finds
      them all. */
  lemma {:induction false} CollapseDropsSpaces(s: string)
    ensures CollapseSelfClosing(s) == DropSpaceBeforeClose(s)
  {
    if s != [] {
      if StartsWith(s, SpacedClose) {
        DropAtMatch(s);
        CollapseDropsSpaces(s[3..]);
      } else {
        CollapseDropsSpaces(s[1..]);
      }
    }
  }

  /** At a match, deleting the space leaves `/>` in front of the rest. */
  lemma DropAtMatch(s: string)
    requires StartsWith(s, SpacedClose)
    ensures DropSpaceBeforeClose(s) == "/>" + DropSpaceBeforeClose(s[3..])
  {
    assert s[..3] == SpacedClose;
    assert s[1] == '/' && s[2] == '>';
    var t, u := s[1..], s[2..];
    NoMatchAt(t);
    NoMatchAt(u);
    assert t[1..] == u && u[1..] == s[3..];
    assert DropSpaceBeforeClose(u) == [u[0]] + DropSpaceBeforeClose(s[3..]);
    assert DropSpaceBeforeClose(t) == [t[0]] + DropSpaceBeforeClose(u);
  }

  lemma NoMatchAt(t: string)
    requires t != [] && t[0] != ' '
    ensures !StartsWith(t, SpacedClose)
  {
    if |t| >= 3 {
      assert t[..3][0] == t[0];
    }
  }

  /** One character is removed per occurrence. */
  lemma {:induction false} CollapseLength(s: string)
    ensures |CollapseSelfClosing(s)| == |s| - Occurrences(s)
  {
    CollapseDropsSpaces(s);
    DropLength(s);
  }

  lemma {:induction false} DropLength(s: string)
    ensures Occurrences(s) <= |s|
    ensures |DropSpaceBeforeClose(s)| == |s| - Occurrences(s)
  {
    if s != [] {
      DropLength(s[1..]);
    }
  }

  /** Text without ` />` is left alone. */
  lemma {:induction false} CollapseWithoutMatch(s: string)
    requires !Contains(s, SpacedClose)
    ensures CollapseSelfClosing(s) == s
  {
    if s != [] {
      ContainsTail(s, SpacedClose);
      CollapseWithoutMatch(s[1..]);
      assert s == [s[0]] + s[1..];
    }
  }

  /** The substitution only deletes characters: it never introduces a
      character that was not there. */
  lemma {:induction false} CollapseKeepsCharacters(s: string)
    ensures forall c :: c in CollapseSelfClosing(s) ==> c in s
  {
    if s != [] {
      if StartsWith(s, SpacedClose) {
        CollapseKeepsCharacters(s[3..]);
        assert s[..3] == SpacedClose;
        assert s[1] == '/' && s[2] == '>';
        forall c | c in s[3..] ensures c in s {
          var j :| 0 <= j < |s[3..]| && s[3..][j] == c;
          assert s[j + 3] == c;
        }
      } else {
        CollapseKeepsCharacters(s[1..]);
        forall c | c in s[1..] ensures c in s {
          var j :| 0 <= j < |s[1..]| && s[1..][j] == c;
          assert s[j + 1] == c;
        }
      }
    }
  }

  /** One pass is not always enough: a run of two spaces before `/>` loses
      only one of them, and a second pass would change the text again. */
  lemma CollapseNotIdempotent()
    ensures CollapseSelfClosing("  />") == " />"
    ensures CollapseSelfClosing(CollapseSelfClosing("  />")) == "/>"
  {
    assert !StartsWith("  />", SpacedClose);
    assert "  />"[1..] == " />";
    assert StartsWith(" />", SpacedClose);
    assert " />"[3..] == [];
  }

  // ---------------------------------------------------------------------
  // Both rewrites

  /** The text that is written after the XML declaration. */
  function PostProcess(xml: string): (r: string)
    ensures Marker !in r
  {
    CollapseKeepsCharacters(EscapeMarkers(xml));
    CollapseSelfClosing(EscapeMarkers(xml))
  }
}
