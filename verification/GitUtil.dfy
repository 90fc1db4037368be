/**
  internal/gitutil: the kinds of ref, the refs and objects of a clone, and commit
  ancestry.  The git program is replaced by what it answers.
 */
module GitUtil {
  import opened Wrappers
  import opened Hashing
  import opened Text

  datatype RefKind = Branch | Tag

  /** The kind of a full ref path, if it is one the program works on. */
  function ParseRefKind(ref: bytes): Option<RefKind> {
    if HasPrefix(ref, "refs/tags/") then Some(Tag)
    else if HasPrefix(ref, "refs/heads/") then Some(Branch)
    else None
  }

  /** Ancestor or equal, a fixed relation on immutable commits. */
  type Ancestry = (bytes, bytes) -> bool

  ghost predicate IsAncestry(anc: Ancestry) {
    && (forall a :: anc(a, a))
    && (forall a, b, c :: anc(a, b) && anc(b, c) ==> anc(a, c))
  }

  datatype GitError = MissingObject | UnknownRef

  /** A clone: the objects it holds, and where its refs point. */
  datatype Clone = Clone(anc: Ancestry, objects: set<bytes>, refs: map<bytes, bytes>)

  /** `git merge-base --is-ancestor`: an error when the clone lacks one of the objects. */
  function IsAncestor(clone: Clone, ancestor: bytes, descendant: bytes): Result<bool, GitError> {
    if ancestor in clone.objects && descendant in clone.objects
    then Ok(clone.anc(ancestor, descendant))
    else Err(MissingObject)
  }

  function ResolveRef(clone: Clone, ref: bytes): Result<bytes, GitError> {
    if ref in clone.refs then Ok(clone.refs[ref]) else Err(UnknownRef)
  }
}
