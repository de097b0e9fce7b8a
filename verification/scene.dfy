/**
 * The Qt Quick side of VulkanWindowWithSwQuick as the renderer sees it: three flags
 * (vulkanwindow.h:155-157) that startQuick, runQuick, the render-control signals and
 * renderQuickImage set and clear (vulkanwindow.cpp:111-112, 135-153, 155-187, 198-207).
 * QML loading and the software scene-graph render are outcomes chosen by the environment.
 */
module Scene {
  import opened Raster
  import opened Regions

  /**
   * m_quickStarted, m_quickRunning and m_quickSceneChanged. The accessors isQuickStarted,
   * isQuickRunning and hasQuickSceneChanged are reads of these fields.
   */
  datatype Window = Window(quickStarted: bool, quickRunning: bool, quickSceneChanged: bool)

  /** The flags as the header initialises them. */
  const Initial := Window(false, false, false)

  /**
   * What `new QQmlComponent(...)` does with the QML file: it is still loading (runQuick then
   * runs later from statusChanged), or it is ready now and `created` says whether the component
   * had no error, create() succeeded and the root object is a QQuickItem.
   */
  datatype LoadOutcome = LoadsAsync | LoadsNow(created: bool)

  /** What renderQuickImage hands back: the image rendered into and the flushed dirty region. */
  datatype Rendered = Rendered(image: Image, dirty: Region)

  /** Quick only runs once it has been started. */
  predicate Consistent(w: Window)
  {
    w.quickRunning ==> w.quickStarted
  }

  /**
   * runQuick (vulkanwindow.cpp:155-187): on any error it returns and leaves the flags alone;
   * once the root item is in place the scene is running and marked changed.
   */
  function RunQuick(w: Window, created: bool): (r: Window)
    ensures Consistent(w) && w.quickStarted ==> Consistent(r)
    ensures r.quickStarted == w.quickStarted
    ensures r.quickRunning <==> w.quickRunning || created
    ensures r.quickSceneChanged <==> w.quickSceneChanged || created
  {
    if created then w.(quickSceneChanged := true, quickRunning := true) else w
  }

  /**
   * startQuick (vulkanwindow.cpp:198-207): marks Quick started, then either waits for the
   * component to load or runs it at once.
   */
  function StartQuick(w: Window, load: LoadOutcome): (r: Window)
    requires Consistent(w)
    ensures r.quickStarted && Consistent(r)
    ensures r.quickRunning <==> w.quickRunning || load == LoadsNow(true)
    ensures r.quickSceneChanged <==> w.quickSceneChanged || load == LoadsNow(true)
  {
    var started := w.(quickStarted := true);
    match load
    case LoadsAsync => started
    case LoadsNow(created) => RunQuick(started, created)
  }

  /** The renderRequested and sceneChanged signals of the render control (vulkanwindow.cpp:111-112). */
  function SceneChanged(w: Window): (r: Window)
    ensures Consistent(w) ==> Consistent(r)
    ensures r.quickSceneChanged
    ensures r.quickStarted == w.quickStarted && r.quickRunning == w.quickRunning
  {
    w.(quickSceneChanged := true)
  }

  /**
   * renderQuickImage (vulkanwindow.cpp:135-153) as far as the flags go: rendering consumes the
   * change notification and nothing else.
   */
  function RenderQuickImage(w: Window): (r: Window)
    ensures Consistent(w) ==> Consistent(r)
    ensures !r.quickSceneChanged
    ensures r.quickStarted == w.quickStarted && r.quickRunning == w.quickRunning
  {
    w.(quickSceneChanged := false)
  }
}
