/**
 * `ccl::any` of `any.h`: a value of any copyable type, or nothing.
 *
 * The object owns one `placeholder*` (`content`): null, or a `holder<T>`
 * keeping a value of type `T`. The model's `Content` is that pointer's
 * target: `Empty`, or a `Holder` made of the name of `T` (what `typeid`
 * compares) and the value. Values of every type are drawn from the one
 * type parameter `V`. `any_cast<T>` succeeds only when the held type is `T`.
 */
module Anys {
  import opened Wrappers

  /** `std::type_info`, as far as `type()` and `any_cast` compare it. */
  datatype TypeInfo = VoidType | TypeOf(name: string)

  /** What `content` points to: null, or a `holder<T>` with `typeid(T)` named `tag`. */
  datatype Content<V> = Empty | Holder(tag: string, held: V)

  /** The exception `bad_any_cast`. */
  datatype CastError = BadAnyCast

  /** `type()`: the held type, `typeid(void)` when empty. */
  function TypeOfContent<V>(c: Content<V>): (r: TypeInfo)
    ensures r == VoidType <==> c.Empty?
    ensures c.Holder? ==> r.name == c.tag
  {
    if c.Empty? then VoidType else TypeOf(c.tag)
  }

  /**
   * The pointer form `any_cast<T>(any*)` (and its `const` twin): the held
   * value when `operand` is non-null and holds a `T`, else null.
   */
  function CastPtr<V>(operand: Option<Content<V>>, tag: string): (r: Option<V>)
    ensures r.Some? <==> operand.Some? && TypeOfContent(operand.value) == TypeOf(tag)
    ensures r.Some? ==> operand.value == Holder(tag, r.value)
  {
    if operand.Some? && TypeOfContent(operand.value) == TypeOf(tag) then Some(operand.value.held) else None
  }

  /** The reference form `any_cast<T>(any&)`: the held value, or `bad_any_cast` when the pointer form gives null. */
  function CastRef<V>(operand: Content<V>, tag: string): (r: Result<V, CastError>)
    ensures r.Ok? <==> operand.Holder? && operand.tag == tag
    ensures r.Ok? ==> operand == Holder(tag, r.value)
    ensures r.Err? ==> r.error == BadAnyCast
  {
    match CastPtr(Some(operand), tag)
    case Some(v) => Ok(v)
    case None => Err(BadAnyCast)
  }

  /** A value cast back to its own type comes out unchanged, in both forms. */
  lemma CastRoundTrip<V>(tag: string, value: V)
    ensures CastPtr(Some(Holder(tag, value)), tag) == Some(value)
    ensures CastRef(Holder(tag, value), tag) == Ok(value)
  {
  }

  /** A cast to another type, or of an empty or missing `any`, fails: null, or `bad_any_cast`. */
  lemma CastMismatch<V>(c: Content<V>, tag: string)
    requires c.Empty? || c.tag != tag
    ensures CastPtr(Some(c), tag) == None && CastPtr<V>(None, tag) == None
    ensures CastRef(c, tag) == Err(BadAnyCast)
  {
  }

  class Any<V> {
    /** `content`. */
    var content: Content<V>

    /** `any()`: empty. */
    constructor ()
      ensures content == Empty
    {
      content := Empty;
    }

    /** `any(const T&)` and the forwarding `any(T&&)`: hold `value` as a `T`. */
    constructor FromValue(tag: string, value: V)
      ensures content == Holder(tag, value)
    {
      content := Holder(tag, value);
    }

    /** `any(const any&)`: a clone of `other`'s holder, or empty; `other` is untouched. */
    constructor Copy(other: Any<V>)
      ensures content == other.content
    {
      content := other.content;
    }

    /** `any(any&&)`: take `other`'s holder and leave `other` empty. */
    constructor Move(other: Any<V>)
      modifies other
      ensures content == old(other.content) && other.content == Empty
    {
      content := other.content;
      new;
      other.content := Empty;
    }

    /** `swap`: exchange the two holders. */
    method Swap(rhs: Any<V>)
      modifies this, rhs
      ensures content == old(rhs.content) && rhs.content == old(content)
    {
      content, rhs.content := rhs.content, content;
    }

    /** `operator=(const any&)`: copy-and-swap; `rhs` keeps its value. */
    method CopyAssign(rhs: Any<V>)
      modifies this
      ensures content == old(rhs.content) && rhs.content == old(rhs.content)
    {
      var copy := new Any.Copy(rhs);
      copy.Swap(this);
    }

    /**
     * `operator=(any&&)`: swap with `rhs`, then swap `rhs` with an empty
     * `any`. `rhs` ends empty; when `rhs` is this object, so does this one.
     */
    method MoveAssign(rhs: Any<V>)
      modifies this, rhs
      ensures rhs.content == Empty
      ensures rhs != this ==> content == old(rhs.content)
    {
      rhs.Swap(this);
      var blank := new Any();
      blank.Swap(rhs);
    }

    /** `operator=(T&&)`: hold `value` as a `T`, whatever was held before. */
    method AssignValue(tag: string, value: V)
      modifies this
      ensures content == Holder(tag, value)
    {
      var temp := new Any.FromValue(tag, value);
      temp.Swap(this);
    }

    /** `empty()`. */
    method IsEmpty() returns (b: bool)
      ensures b <==> TypeOfContent(content) == VoidType
    {
      b := content.Empty?;
    }

    /** `clear()`: swap with an empty `any`. */
    method Clear()
      modifies this
      ensures content == Empty
    {
      var blank := new Any();
      blank.Swap(this);
    }

    /** `type()`. */
    method Type() returns (t: TypeInfo)
      ensures t == TypeOfContent(content)
      ensures t == VoidType <==> content.Empty?
    {
      if content.Empty? {
        t := VoidType;
      } else {
        t := TypeOf(content.tag);
      }
    }
  }

  /** A copy is an independent value: assigning to the copy leaves the original's value in place. */
  method CopyIsIndependent<V>(tag: string, v: V, w: V) returns (original: Result<V, CastError>, copy: Result<V, CastError>)
    ensures original == Ok(v) && copy == Ok(w)
  {
    var a := new Any.FromValue(tag, v);
    var b := new Any.Copy(a);
    b.AssignValue(tag, w);
    original := CastRef(a.content, tag);
    copy := CastRef(b.content, tag);
  }

  /** After a move the source is empty, and casting it fails with `bad_any_cast`. */
  method MovedFromIsEmpty<V>(tag: string, v: V) returns (target: Result<V, CastError>, source: Result<V, CastError>, sourceType: TypeInfo)
    ensures target == Ok(v) && source == Err(BadAnyCast) && sourceType == VoidType
  {
    var a := new Any.FromValue(tag, v);
    var b := new Any.Move(a);
    target := CastRef(b.content, tag);
    source := CastRef(a.content, tag);
    sourceType := a.Type();
  }
}
