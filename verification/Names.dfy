/** Namespaced Kubernetes names and their "namespace/name" rendering. */
module Names {
  import Text

  datatype NamespacedName = NamespacedName(namespace: string, name: string)
  {
    function String(): string {
      namespace + "/" + name
    }

    /** Kubernetes names never contain a slash. */
    predicate SlashFree() {
      '/' !in namespace && '/' !in name
    }

    /** A reference to an object has the name of an existing namespace, but any text for a name. */
    predicate InNamespace() {
      '/' !in namespace
    }
  }

  /** What a Global Accelerator endpoint refers to. */
  datatype EndpointType = Service | Ingress | Gateway | EndpointID

  /** Splitting the rendering at slashes gives the two components back. */
  lemma RenderingSplits(n: NamespacedName)
    requires n.SlashFree()
    ensures Text.Split(n.String(), '/') == [n.namespace, n.name]
  {
    Text.SplitHead(n.namespace, '/', n.name);
    Text.SplitNoSeparator(n.name, '/');
    assert n.namespace + ['/'] + n.name == n.String();
  }

  /** A slash-free namespace is enough to tell renderings apart. */
  lemma RenderingsDiffer(a: NamespacedName, b: NamespacedName)
    requires a.InNamespace() && b.InNamespace() && a.String() == b.String()
    ensures a == b
  {
    var m, n := |a.namespace|, |b.namespace|;
    assert a.String()[m] == '/' && b.String()[n] == '/';
    assert forall k :: 0 <= k < m ==> a.String()[k] == a.namespace[k];
    assert forall k :: 0 <= k < n ==> b.String()[k] == b.namespace[k];
    assert m == n;
    assert a.String()[..m] == a.namespace && b.String()[..m] == b.namespace;
    assert a.String()[m + 1..] == a.name && b.String()[m + 1..] == b.name;
  }

  lemma RenderingInjective(a: NamespacedName, b: NamespacedName)
    requires a.SlashFree() && b.SlashFree() && a.String() == b.String()
    ensures a == b
  {
    RenderingSplits(a);
    RenderingSplits(b);
    assert [a.namespace, a.name] == [b.namespace, b.name];
    assert [a.namespace, a.name][0] == [b.namespace, b.name][0] && [a.namespace, a.name][1] == [b.namespace, b.name][1];
  }
}
