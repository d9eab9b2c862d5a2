/** The `isFaculty` middleware: only callers whose role is exactly "faculty" get through. */
module FacultyGate {
  import opened Http

  const FACULTY := "faculty"
  const FACULTY_ONLY := "Only faculty can access this."

  /** `req.user.role !== 'faculty'` answers 403; otherwise `next()`.  No state is read but the caller. */
  function IsFaculty(caller: Caller): (g: Gate)
    ensures g.Next? <==> caller.role == FACULTY
    ensures g.Respond? ==> g == Respond(FORBIDDEN, FACULTY_ONLY)
  {
    if caller.role != FACULTY then Respond(FORBIDDEN, FACULTY_ONLY) else Next
  }

  /** The comparison is exact: other spellings and other roles are refused. */
  lemma FacultyIsExactMatch()
    ensures IsFaculty(Caller(1, "Faculty")) == Respond(FORBIDDEN, FACULTY_ONLY)
    ensures IsFaculty(Caller(1, "admin")) == Respond(FORBIDDEN, FACULTY_ONLY)
    ensures IsFaculty(Caller(1, "faculty ")) == Respond(FORBIDDEN, FACULTY_ONLY)
  {
    assert "Faculty"[0] != FACULTY[0];
    assert |"faculty "| != |FACULTY|;
  }

  /** The decision depends on the role alone, not on who the caller is. */
  lemma FacultyIgnoresCallerId(a: Caller, b: Caller)
    requires a.role == b.role
    ensures IsFaculty(a) == IsFaculty(b)
  {}
}
