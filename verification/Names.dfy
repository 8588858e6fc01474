/** Names in the order in which a sorted map visits them. */
module Names {

  /** Lexicographic by code point, which is the byte order of UTF-8. */
  predicate Less(a: string, b: string)
  {
    b != [] && (a == [] || a[0] < b[0] || (a[0] == b[0] && Less(a[1..], b[1..])))
  }

  /** A proper prefix, or a smaller code point at the first difference. */
  ghost predicate Before(a: string, b: string)
  {
    exists k :: 0 <= k <= |a| && k < |b| && a[..k] == b[..k] && (k < |a| ==> a[k] < b[k])
  }

  lemma {:induction false} LessIffBefore(a: string, b: string)
    ensures Less(a, b) <==> Before(a, b)
  {
    if b != [] && (a == [] || a[0] != b[0]) {
      assert a[..0] == b[..0];
    } else if b != [] {
      LessIffBefore(a[1..], b[1..]);
      if Before(a[1..], b[1..]) {
        var c, d := a[1..], b[1..];
        var k :| 0 <= k <= |c| && k < |d| && c[..k] == d[..k] && (k < |c| ==> c[k] < d[k]);
        assert a[..k + 1] == [a[0]] + a[1..][..k] && b[..k + 1] == [b[0]] + b[1..][..k];
      }
      if Before(a, b) {
        var k :| 0 <= k <= |a| && k < |b| && a[..k] == b[..k] && (k < |a| ==> a[k] < b[k]);
        assert k > 0;
        assert a[1..][..k - 1] == a[..k][1..] && b[1..][..k - 1] == b[..k][1..];
      }
    }
  }

  lemma {:induction false} Trichotomy(a: string, b: string)
    ensures Less(a, b) || a == b || Less(b, a)
    ensures !(Less(a, b) && Less(b, a)) && (a == b ==> !Less(a, b))
  {
    if a != [] && b != [] && a[0] == b[0] {
      Trichotomy(a[1..], b[1..]);
      assert a == [a[0]] + a[1..] && b == [b[0]] + b[1..];
    }
  }

  lemma {:induction false} Transitive(a: string, b: string, c: string)
    requires Less(a, b) && Less(b, c)
    ensures Less(a, c)
  {
    if a != [] && a[0] == b[0] && b[0] == c[0] { Transitive(a[1..], b[1..], c[1..]); }
  }

  predicate IsLeast(name: string, names: set<string>)
  {
    name in names && forall other :: other in names && other != name ==> Less(name, other)
  }

  lemma {:induction false} LeastExists(names: set<string>)
    requires names != {}
    ensures exists name :: IsLeast(name, names)
    decreases |names|
  {
    var some :| some in names;
    var others := names - {some};
    if others == {} {
      assert names == {some};
      assert IsLeast(some, names);
    } else {
      LeastExists(others);
      var least :| IsLeast(least, others);
      Trichotomy(some, least);
      if Less(least, some) {
        assert IsLeast(least, names);
      } else {
        forall other | other in others && other != least ensures Less(some, other) {
          Transitive(some, least, other);
        }
        assert IsLeast(some, names);
      }
    }
  }

  lemma LeastUnique(a: string, b: string, names: set<string>)
    requires IsLeast(a, names) && IsLeast(b, names)
    ensures a == b
  {
    Trichotomy(a, b);
  }

  lemma OnlyOneLeast(names: set<string>)
    ensures forall a, b :: IsLeast(a, names) && IsLeast(b, names) ==> a == b
  {
    forall a, b | IsLeast(a, names) && IsLeast(b, names) ensures a == b { LeastUnique(a, b, names); }
  }

  /** The names in ascending order, each once. */
  function Sorted(names: set<string>): (s: seq<string>)
    ensures |s| == |names| && (forall name :: name in s <==> name in names)
    ensures forall i, j :: 0 <= i < j < |s| ==> Less(s[i], s[j])
    decreases |names|
  {
    if names == {} then []
    else
      LeastExists(names);
      OnlyOneLeast(names);
      var least :| IsLeast(least, names);
      var later := Sorted(names - {least});
      assert [least] + later != [] && forall name :: name in names <==> name == least || name in later;
      [least] + later
  }
}
