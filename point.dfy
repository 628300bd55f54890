/** src/utils/point.js: a constructor that stores three coordinates. */
module Points {
  import opened JsValues

  /** `function Point(x, y, z = 0)` used with `new`: the fields are assigned
      one after the other and nothing is checked, so any values are kept as
      given; `z` falls back to 0 when it is omitted or undefined. */
  class Point {
    var x: JsValue
    var y: JsValue
    var z: JsValue

    constructor (x: JsValue, y: JsValue, z: JsValue := JsUndefined)
      ensures this.x == x
      ensures this.y == y
      ensures z != JsUndefined ==> this.z == z
      ensures z == JsUndefined ==> this.z == JsNumber(0)
    {
      this.x := x;
      this.y := y;
      this.z := ApplyDefault(z, JsNumber(0));
    }
  }

  /** Leaving `z` out builds the same point as passing 0 for it. */
  method OmittedZIsZero(x: JsValue, y: JsValue) returns (p: Point, q: Point)
    ensures p.x == q.x == x && p.y == q.y == y
    ensures p.z == q.z == JsNumber(0)
  {
    p := new Point(x, y);
    q := new Point(x, y, JsNumber(0));
  }
}
