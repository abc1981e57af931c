/** The per-file decision of the selective file mover: the content predicate
    (move_files.py `contains_string`) and the if / elif rule of `move_files`
    that picks between the content branch, the type branch and leaving the
    file alone. */
module Decision {
  import opened Options
  import opened Strings

  /** The two optional criteria. `None` is the argument left at its default;
      `Some("")` is an explicit empty string. Both are falsy in Python. */
  datatype Criteria = Criteria(search: Option<string>, fileType: Option<string>)

  /** Which branch of the if / elif fires for a regular file. */
  datatype Verdict = ByContent | ByType | Keep

  /** The only extension the content branch looks at. */
  const MarkdownSuffix: string := ".md"

  /** Python truthiness of an optional string: present and non-empty. */
  predicate Truthy(o: Option<string>)
  {
    o.Some? && o.value != ""
  }

  /** The content predicate. `contents` is `None` when opening or decoding the
      file failed; any such failure is reported and counts as a non-match. */
  function ContainsString(contents: Option<string>, needle: string): (r: bool)
    ensures r <==> contents.Some? && exists i :: OccursAt(contents.value, needle, i)
    ensures contents.None? ==> !r
  {
    match contents
    case None => false
    case Some(text) => Contains(text, needle)
  }

  /** The content branch's full guard, evaluated left to right as Python does:
      the file is read only when the first two conjuncts hold. */
  predicate ContentBranch(name: string, contents: Option<string>, crit: Criteria)
  {
    Truthy(crit.search) && EndsWith(name, MarkdownSuffix) && ContainsString(contents, crit.search.value)
  }

  /** The type branch's guard, reached only when the content branch did not fire. */
  predicate TypeBranch(name: string, crit: Criteria)
  {
    Truthy(crit.fileType) && EndsWith(name, crit.fileType.value)
  }

  /** The if / elif of `move_files` for one regular file. */
  function Decide(name: string, contents: Option<string>, crit: Criteria): Verdict
  {
    if ContentBranch(name, contents, crit) then ByContent
    else if TypeBranch(name, crit) then ByType
    else Keep
  }

  /** `contains_string` is called (and may report a read failure) exactly when
      the guard's first two conjuncts hold. */
  predicate ReadsContents(name: string, crit: Criteria)
  {
    Truthy(crit.search) && EndsWith(name, MarkdownSuffix)
  }

  /** The decision rule stated against the reference string definitions: the
      content branch fires iff the search string is non-empty, the name has the
      `.md` tail and the readable contents hold the string at some index;
      otherwise the type branch fires iff the type string is non-empty and is a
      tail of the name. The two branches exclude each other. */
  lemma DecisionRule(name: string, contents: Option<string>, crit: Criteria)
    ensures Decide(name, contents, crit) == ByContent <==>
      && crit.search.Some? && |crit.search.value| > 0
      && HasTail(name, ".md")
      && contents.Some? && (exists i :: OccursAt(contents.value, crit.search.value, i))
    ensures Decide(name, contents, crit) == ByType <==>
      && Decide(name, contents, crit) != ByContent
      && crit.fileType.Some? && |crit.fileType.value| > 0
      && HasTail(name, crit.fileType.value)
  {
    EndsWithIsTail(name, ".md");
    if crit.fileType.Some? {
      EndsWithIsTail(name, crit.fileType.value);
    }
  }

  /** A `.md` file whose contents cannot be read, or do not hold the search
      string, is not taken by the content branch and falls through to the type
      branch, which decides it on its name alone. */
  lemma MarkdownWithoutMatchFallsThrough(name: string, contents: Option<string>, crit: Criteria)
    requires contents.None? || (crit.search.Some? && !Contains(contents.value, crit.search.value))
    ensures Decide(name, contents, crit) != ByContent
    ensures Decide(name, contents, crit) == ByType <==> TypeBranch(name, crit)
    ensures Decide(name, contents, crit) == Decide(name, None, crit)
  {
  }

  /** An unreadable `.md` file whose name ends with the type string is moved by
      the type branch. */
  lemma UnreadableMarkdownMovedByType(name: string, crit: Criteria)
    requires EndsWith(name, MarkdownSuffix)
    requires crit.fileType == Some(MarkdownSuffix)
    ensures Decide(name, None, crit) == ByType
  {
  }

  /** An absent or empty criterion disables its branch; with both disabled no
      file is ever selected. Without the truthiness test the type branch would
      fire for every name, because every name ends with "". */
  lemma EmptyCriteriaDisableBranches(name: string, contents: Option<string>, crit: Criteria)
    ensures !Truthy(crit.search) ==> Decide(name, contents, crit) != ByContent
    ensures !Truthy(crit.fileType) ==> Decide(name, contents, crit) != ByType
    ensures crit.fileType == Some("") ==> EndsWith(name, crit.fileType.value)
  {
    EveryNameEndsWithEmpty(name);
  }

  /** The decision looks at nothing but the name, the contents and the criteria,
      and a non-`.md` name never reaches the content predicate. */
  lemma NonMarkdownIgnoresContents(name: string, c1: Option<string>, c2: Option<string>, crit: Criteria)
    requires !EndsWith(name, MarkdownSuffix)
    ensures Decide(name, c1, crit) == Decide(name, c2, crit)
    ensures Decide(name, c1, crit) != ByContent
  {
  }
}
