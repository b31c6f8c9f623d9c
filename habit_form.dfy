/**
 The rule of the habit form (src/components/AddHabitModal.jsx): a name is
 trimmed the way `String.prototype.trim` trims it, and a habit is created
 only when the trimmed name is not empty.
 */
module HabitForm {

  import opened Wrappers
  import opened Store

  /** The characters `String.prototype.trim` removes: white space and line terminators. */
  predicate IsSpace(ch: char) {
    var c := ch as int;
    (0x09 <= c <= 0x0D) || c == 0x20 || c == 0xA0 || c == 0x1680 || (0x2000 <= c <= 0x200A)
    || c == 0x2028 || c == 0x2029 || c == 0x202F || c == 0x205F || c == 0x3000 || c == 0xFEFF
  }

  function TrimStart(s: string): string {
    if s != [] && IsSpace(s[0]) then TrimStart(s[1..]) else s
  }

  function TrimEnd(s: string): string {
    if s != [] && IsSpace(s[|s| - 1]) then TrimEnd(s[..|s| - 1]) else s
  }

  /**
   `trim()`: the string with its leading and trailing white space removed
   and everything between kept.
   */
  function Trim(s: string): (t: string)
    ensures t != [] ==> !IsSpace(t[0]) && !IsSpace(t[|t| - 1])
    ensures exists i, j :: 0 <= i <= j <= |s| && t == s[i..j]
              && (forall k :: 0 <= k < i ==> IsSpace(s[k]))
              && (forall k :: j <= k < |s| ==> IsSpace(s[k]))
  {
    TrimStartShape(s);
    TrimEndKeepsStart(TrimStart(s));
    TrimEndShape(TrimStart(s));
    TrimSpan(s);
    TrimEnd(TrimStart(s))
  }

  /** `TrimStart` drops a prefix of white space. */
  lemma {:induction false} TrimStartDrops(s: string) returns (i: nat)
    ensures i <= |s| && TrimStart(s) == s[i..]
    ensures forall k :: 0 <= k < i ==> IsSpace(s[k])
  {
    if s != [] && IsSpace(s[0]) {
      var rest := TrimStartDrops(s[1..]);
      i := rest + 1;
      assert s[1..][rest..] == s[i..];
      forall k | 0 <= k < i
        ensures IsSpace(s[k])
      {
        if k > 0 {
          assert s[k] == s[1..][k - 1];
        }
      }
    } else {
      i := 0;
    }
  }

  /** `TrimEnd` drops a suffix of white space. */
  lemma {:induction false} TrimEndKeeps(s: string) returns (j: nat)
    ensures j <= |s| && TrimEnd(s) == s[..j]
    ensures forall k :: j <= k < |s| ==> IsSpace(s[k])
  {
    if s != [] && IsSpace(s[|s| - 1]) {
      var init := s[..|s| - 1];
      j := TrimEndKeeps(init);
      assert init[..j] == s[..j];
      forall k | j <= k < |s|
        ensures IsSpace(s[k])
      {
        if k < |s| - 1 {
          assert s[k] == init[k];
        }
      }
    } else {
      j := |s|;
    }
  }

  /** Trimming keeps the middle of the string and drops only white space around it. */
  lemma TrimSpan(s: string)
    ensures exists i, j :: 0 <= i <= j <= |s| && TrimEnd(TrimStart(s)) == s[i..j]
              && (forall k :: 0 <= k < i ==> IsSpace(s[k]))
              && (forall k :: j <= k < |s| ==> IsSpace(s[k]))
  {
    var i := TrimStartDrops(s);
    var u := s[i..];
    var n := TrimEndKeeps(u);
    var j := i + n;
    assert u[..n] == s[i..j];
    forall k | j <= k < |s|
      ensures IsSpace(s[k])
    {
      assert s[k] == u[k - i];
    }
  }

  lemma {:induction false} TrimStartShape(s: string)
    ensures TrimStart(s) != [] ==> !IsSpace(TrimStart(s)[0])
  {
    if s != [] && IsSpace(s[0]) {
      TrimStartShape(s[1..]);
    }
  }

  lemma {:induction false} TrimEndShape(s: string)
    ensures TrimEnd(s) != [] ==> !IsSpace(TrimEnd(s)[|TrimEnd(s)| - 1])
  {
    if s != [] && IsSpace(s[|s| - 1]) {
      TrimEndShape(s[..|s| - 1]);
    }
  }

  /** Trimming the end of a string that starts with a non-space keeps that first character. */
  lemma {:induction false} TrimEndKeepsStart(s: string)
    ensures s != [] && !IsSpace(s[0]) ==> TrimEnd(s) != [] && TrimEnd(s)[0] == s[0]
  {
    if s != [] && !IsSpace(s[0]) && IsSpace(s[|s| - 1]) {
      TrimEndKeepsStart(s[..|s| - 1]);
    }
  }

  /** Trimming a trimmed string changes nothing. */
  lemma TrimIdempotent(s: string)
    ensures Trim(Trim(s)) == Trim(s)
  {
    var t := Trim(s);
    if t != [] {
      assert TrimStart(t) == t;
      assert TrimEnd(t) == t;
    }
  }

  /** A habit as the form creates it: a non-empty name with no surrounding white space. */
  predicate WellFormedHabit(h: Habit) {
    h.name != "" && Trim(h.name) == h.name
  }

  /** The form's submit: no habit when the trimmed name is empty, else one with the trimmed name. */
  function HabitFromForm(name: string, id: string, createdAt: string): (r: Option<Habit>)
    ensures r.Some? <==> Trim(name) != ""
    ensures r.Some? ==> WellFormedHabit(r.value) && r.value.id == id && r.value.name == Trim(name)
  {
    TrimIdempotent(name);
    if Trim(name) != "" then Some(Habit(id, Trim(name), createdAt)) else None
  }
}
