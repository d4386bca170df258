/**
 * Pulling a saddle connection back through an optional deformation: the
 * connection of the deformed surface becomes the list of steps that make it
 * up on the surface the component is drawn on.
 */
module Deformations {
  import opened Errors
  import opened Surfaces

  /**
   * A deformation from the surface `domain`; `image` is what applying it to the
   * one-connection path of a connection yields, as a list of connections.
   */
  datatype Deformation = Deformation(domain: SurfaceId, codomain: SurfaceId, image: SaddleConnection -> seq<SaddleConnection>)

  /** The sum of the vectors of `steps`, starting from the zero vector. */
  function SumVectors(steps: seq<SaddleConnection>): Vector
  {
    if steps == [] then Zero else Add(steps[0].vector, SumVectors(steps[1..]))
  }

  /**
   * The steps making up `connection`: the connection itself without a
   * deformation; otherwise the deformation's image, after checking that the
   * connection lies on the deformation's domain and that the image adds up to
   * the connection's vector.
   */
  function Pullback(deformation: Option<Deformation>, connection: SaddleConnection): (r: Result<seq<SaddleConnection>>)
    ensures deformation.None? ==> r == Success([connection])
    ensures deformation.Some? && connection.surface != deformation.value.domain ==> r == Failure(DomainMismatch)
    ensures deformation.Some? ==> (r.Success? <==> && connection.surface == deformation.value.domain
                                                   && deformation.value.image(connection) != []
                                                   && SumVectors(deformation.value.image(connection)) == connection.vector)
    ensures deformation.Some? && r.Success? ==> r.value == deformation.value.image(connection)
    ensures r.Success? ==> r.value != [] && SumVectors(r.value) == connection.vector
  {
    match deformation
    case None => Success([connection])
    case Some(d) =>
      if connection.surface != d.domain then Failure(DomainMismatch)
      else
        var steps := d.image(connection);
        if steps == [] then Failure(EmptyPullback)
        else if SumVectors(steps) != connection.vector then Failure(VectorMismatch)
        else Success(steps)
  }
}
