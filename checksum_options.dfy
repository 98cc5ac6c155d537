/**
 * The compile-time options of the checksum layer, folded into the single flag
 * `has_verify_before_read` that selects the layer's read policy.
 *
 * The source walks a variadic list of option types with one template
 * specialisation per option kind: the empty list, `checksum_layer_verify_before_read`,
 * `empty_option` and a `std::tuple` bundle. Here the list is a sequence of
 * `Opt` values and the specialisations are the cases of one recursive function.
 */
module ChecksumOptions {

  /** One option token. `Bundle` is a tuple of options; `Unsupported` stands for
      every option type the parser has no specialisation for. */
  datatype Opt =
    | VerifyBeforeRead
    | EmptyOption
    | Bundle(members: seq<Opt>)
    | Unsupported(name: string)

  /** Number of tokens with every bundle expanded (a bundle counts once itself).
      This is the measure that the fold decreases when it splices a bundle. */
  function Size(opts: seq<Opt>): nat
    decreases opts
  {
    if opts == [] then 0
    else (match opts[0] case Bundle(b) => 1 + Size(b) case _ => 1) + Size(opts[1..])
  }

  /** An option the parser has a specialisation for (bundles: all their members). */
  predicate Supported(o: Opt) {
    match o
    case Unsupported(_) => false
    case Bundle(b) => forall i | 0 <= i < |b| :: Supported(b[i])
    case _ => true
  }

  /** An option list that instantiates: the primary template is declared but never
      defined, so a list holding any other option does not compile. */
  predicate Accepted(opts: seq<Opt>) {
    forall i | 0 <= i < |opts| :: Supported(opts[i])
  }

  /** The list with every bundle replaced by its members, recursively. */
  function Flatten(opts: seq<Opt>): (r: seq<Opt>)
    decreases Size(opts)
    ensures forall i | 0 <= i < |r| :: !r[i].Bundle?
  {
    if opts == [] then []
    else match opts[0]
      case Bundle(b) => Flatten(b) + Flatten(opts[1..])
      case o => [o] + Flatten(opts[1..])
  }

  lemma {:induction false} SizeAppend(a: seq<Opt>, b: seq<Opt>)
    ensures Size(a + b) == Size(a) + Size(b)
    decreases |a|
  {
    if a == [] {
      assert a + b == b;
    } else {
      assert (a + b)[0] == a[0];
      assert (a + b)[1..] == a[1..] + b;
      SizeAppend(a[1..], b);
    }
  }

  /** Flattening distributes over concatenation. */
  lemma {:induction false} FlattenAppend(a: seq<Opt>, b: seq<Opt>)
    ensures Flatten(a + b) == Flatten(a) + Flatten(b)
    decreases |a|
  {
    if a == [] {
      assert a + b == b;
    } else {
      assert (a + b)[0] == a[0];
      assert (a + b)[1..] == a[1..] + b;
      FlattenAppend(a[1..], b);
    }
  }

  lemma AcceptedAppend(a: seq<Opt>, b: seq<Opt>)
    ensures Accepted(a + b) <==> Accepted(a) && Accepted(b)
  {
    if Accepted(a) && Accepted(b) {
      forall i | 0 <= i < |a + b| ensures Supported((a + b)[i]) {
        if i < |a| { assert (a + b)[i] == a[i]; } else { assert (a + b)[i] == b[i - |a|]; }
      }
    }
    if Accepted(a + b) {
      forall i | 0 <= i < |a| ensures Supported(a[i]) { assert (a + b)[i] == a[i]; }
      forall i | 0 <= i < |b| ensures Supported(b[i]) { assert (a + b)[|a| + i] == b[i]; }
    }
  }

  /**
   * `checksum_layer_options_parser<TOptions...>::has_verify_before_read`.
   * The flag is set exactly when the option `VerifyBeforeRead` occurs in the
   * flattened list; empty options are skipped and bundles are spliced in place.
   */
  function HasVerifyBeforeRead(opts: seq<Opt>): (r: bool)
    requires Accepted(opts)
    decreases Size(opts)
    ensures r <==> VerifyBeforeRead in Flatten(opts)
  {
    if opts == [] then false
    else
      match opts[0]
      case VerifyBeforeRead => true
      case EmptyOption => HasVerifyBeforeRead(opts[1..])
      case Bundle(b) =>
        SizeAppend(b, opts[1..]);
        AcceptedAppend(b, opts[1..]);
        FlattenAppend(b, opts[1..]);
        HasVerifyBeforeRead(b + opts[1..])
  }

  /** The empty option list selects the default policy, verify-after-read. */
  lemma EmptyListIsAfterRead()
    ensures !HasVerifyBeforeRead([])
  {
  }

  /** A list headed by `VerifyBeforeRead` sets the flag, whatever (accepted) tail follows. */
  lemma HeadVerifyBeforeRead(rest: seq<Opt>)
    requires Accepted(rest)
    ensures Accepted([VerifyBeforeRead] + rest)
    ensures HasVerifyBeforeRead([VerifyBeforeRead] + rest)
  {
    AcceptedAppend([VerifyBeforeRead], rest);
  }

  /** An empty option is ignored wherever it stands in the list. */
  lemma {:induction false} EmptyOptionIgnored(before: seq<Opt>, after: seq<Opt>)
    requires Accepted(before + after)
    ensures Accepted(before + [EmptyOption] + after)
    ensures HasVerifyBeforeRead(before + [EmptyOption] + after) == HasVerifyBeforeRead(before + after)
  {
    AcceptedAppend(before, after);
    AcceptedAppend(before, [EmptyOption]);
    AcceptedAppend(before + [EmptyOption], after);
    FlattenAppend(before, after);
    FlattenAppend(before, [EmptyOption]);
    FlattenAppend(before + [EmptyOption], after);
    assert Flatten([EmptyOption]) == [EmptyOption] + Flatten([]);
  }

  /** A bundle is the same as its members spliced in its place, wherever it stands. */
  lemma {:induction false} BundleSpliced(before: seq<Opt>, b: seq<Opt>, after: seq<Opt>)
    requires Accepted(before + b + after)
    ensures Accepted(before + [Bundle(b)] + after)
    ensures HasVerifyBeforeRead(before + [Bundle(b)] + after) == HasVerifyBeforeRead(before + b + after)
  {
    AcceptedAppend(before + b, after);
    AcceptedAppend(before, b);
    assert Supported(Bundle(b));
    AcceptedAppend(before, [Bundle(b)]);
    AcceptedAppend(before + [Bundle(b)], after);
    FlattenAppend(before + b, after);
    FlattenAppend(before, b);
    FlattenAppend(before, [Bundle(b)]);
    FlattenAppend(before + [Bundle(b)], after);
    assert [Bundle(b)][1..] == [];
    assert Flatten([Bundle(b)]) == Flatten(b) + Flatten([]);
    assert Flatten([]) == [];
  }

  /** The flag does not depend on the order of the options. */
  lemma {:induction false} OrderIrrelevant(a: seq<Opt>, b: seq<Opt>)
    requires Accepted(a) && Accepted(b)
    ensures Accepted(a + b) && Accepted(b + a)
    ensures HasVerifyBeforeRead(a + b) == HasVerifyBeforeRead(b + a)
    ensures HasVerifyBeforeRead(a + b) == (HasVerifyBeforeRead(a) || HasVerifyBeforeRead(b))
  {
    AcceptedAppend(a, b);
    AcceptedAppend(b, a);
    FlattenAppend(a, b);
    FlattenAppend(b, a);
  }
}
