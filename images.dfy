/** Images of finite collections under a function, as the enumerators build
    them: one insertion into a set per element met. */
module Images {

  /** The set of values f takes on the elements of s. */
  ghost function SeqImage<T, U>(s: seq<T>, f: T --> U): set<U>
    requires forall x :: x in s ==> f.requires(x)
  {
    set x | x in s :: f(x)
  }

  /** Meeting one more element adds exactly its value. */
  lemma SeqImageSnoc<T, U>(s: seq<T>, x: T, f: T --> U)
    requires forall y :: y in s + [x] ==> f.requires(y)
    ensures SeqImage(s + [x], f) == SeqImage(s, f) + {f(x)}
  {
    forall v | v in SeqImage(s + [x], f) ensures v in SeqImage(s, f) + {f(x)} {
      var y :| y in s + [x] && v == f(y);
      if y != x {
        assert y in s;
      }
    }
    forall v | v in SeqImage(s, f) + {f(x)} ensures v in SeqImage(s + [x], f) {
      if v != f(x) {
        var y :| y in s && v == f(y);
        assert y in s + [x];
      } else {
        assert x in s + [x];
      }
    }
  }

  /** The set of values f takes on the elements of s. */
  ghost function SetImage<T, U>(s: set<T>, f: T --> U): set<U>
    requires forall x :: x in s ==> f.requires(x)
  {
    set x | x in s :: f(x)
  }

  lemma SetImageAdd<T, U>(s: set<T>, x: T, f: T --> U)
    requires forall y :: y in s + {x} ==> f.requires(y)
    ensures SetImage(s + {x}, f) == SetImage(s, f) + {f(x)}
  {
    forall v | v in SetImage(s + {x}, f) ensures v in SetImage(s, f) + {f(x)} {
      var y :| y in s + {x} && v == f(y);
      if y != x {
        assert y in s;
      }
    }
  }

  /** An image has at most as many elements as the set it comes from. */
  lemma {:induction false} SetImageSize<T, U>(s: set<T>, f: T --> U)
    requires forall x :: x in s ==> f.requires(x)
    ensures |SetImage(s, f)| <= |s|
  {
    if s != {} {
      var x :| x in s;
      var rest := s - {x};
      SetImageSize(rest, f);
      SetImageAdd(rest, x, f);
      assert rest + {x} == s;
    }
  }
}
